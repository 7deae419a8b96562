/** Chat rewriting: other players' names are highlighted, then `&1` … `&9`
    placeholders are replaced by the items in the sender's hotbar slots. */
module Chat {
  import opened Common

  // ---------------------------------------------------------------------
  // Item placeholders

  /** One piece of the rewritten message: literal text, or the item shown
      for placeholder `&digit`, carrying the item's display name. */
  datatype Part = Text(s: string) | Item(digit: char, displayName: string)

  predicate IsDigit(c: char)
  {
    '0' <= c <= '9'
  }

  /** The pattern `&(\d)` matches at index i. */
  predicate PlaceholderAt(msg: string, i: int)
  {
    0 <= i && i + 1 < |msg| && msg[i] == '&' && IsDigit(msg[i + 1])
  }

  /** Where the matcher finds the next placeholder at or after `from`. */
  function NextPlaceholder(msg: string, from: nat): (r: Option<nat>)
    ensures r.Some? ==> from <= r.value && PlaceholderAt(msg, r.value)
    ensures r.Some? ==> forall i | from <= i < r.value :: !PlaceholderAt(msg, i)
    ensures r.None? ==> forall i | from <= i :: !PlaceholderAt(msg, i)
    decreases |msg| - from
  {
    if from + 1 >= |msg| then None
    else if PlaceholderAt(msg, from) then Some(from)
    else NextPlaceholder(msg, from + 1)
  }

  /** The hotbar slot a digit names: the digit minus one, so `&0` names no
      slot. */
  function SlotOf(digit: char): (slot: int)
    requires IsDigit(digit)
    ensures -1 <= slot <= 8
  {
    (digit as int - '0' as int) - 1
  }

  /** The part a placeholder becomes: the item of a filled slot 0..8, and the
      literal `&digit` for an empty or invalid slot. `slots` holds the display
      names of the filled hotbar slots. */
  function PlaceholderPart(digit: char, slots: map<int, string>): (p: Part)
    requires IsDigit(digit)
    ensures p.Item? <==> 0 <= SlotOf(digit) <= 8 && SlotOf(digit) in slots
    ensures p.Item? ==> p == Item(digit, slots[SlotOf(digit)])
    ensures p.Text? ==> p.s == ['&', digit]
  {
    var slot := SlotOf(digit);
    if 0 <= slot <= 8 && slot in slots then Item(digit, slots[slot]) else Text(['&', digit])
  }

  /** The parts `processItemDisplay` builds from `msg[from..]`: the text
      before each placeholder when there is any, the placeholder's part, and
      at the end the remaining text when there is any. */
  function PartsFrom(msg: string, slots: map<int, string>, from: nat): (parts: seq<Part>)
    requires from <= |msg|
    decreases |msg| - from
  {
    match NextPlaceholder(msg, from)
    case None => TextBetween(msg, from, |msg|)
    case Some(j) => TextBetween(msg, from, j) + [PlaceholderPart(msg[j + 1], slots)] + PartsFrom(msg, slots, j + 2)
  }

  /** One step of the matcher: the text before the next placeholder, the
      placeholder's part, then the parts of the rest. */
  lemma PartsFromStep(msg: string, slots: map<int, string>, from: nat, j: nat)
    requires from <= |msg| && NextPlaceholder(msg, from) == Some(j)
    ensures PartsFrom(msg, slots, from)
            == TextBetween(msg, from, j) + [PlaceholderPart(msg[j + 1], slots)] + PartsFrom(msg, slots, j + 2)
  {
  }

  /** The text part for `msg[from..to]`, or none when it is empty. */
  function TextBetween(msg: string, from: int, to: int): (parts: seq<Part>)
    requires 0 <= from <= to <= |msg|
  {
    if from < to then [Text(msg[from..to])] else []
  }

  lemma TextBetweenRule(msg: string, from: int, to: int)
    requires 0 <= from <= to <= |msg|
    ensures Source(TextBetween(msg, from, to)) == msg[from..to]
    ensures forall p | p in TextBetween(msg, from, to) :: p.Text? && p.s != []
  {
    if from < to {
      assert Source([Text(msg[from..to])]) == msg[from..to] + Source([]);
    }
  }

  /** The text a part stands for in the message it came from. */
  function SourceOf(p: Part): (s: string)
  {
    match p
    case Text(s) => s
    case Item(digit, _) => ['&', digit]
  }

  function Source(parts: seq<Part>): (s: string)
  {
    if parts == [] then [] else SourceOf(parts[0]) + Source(parts[1..])
  }

  /** What a part shows: text as is, an item as `[name]`. */
  function Shown(p: Part): (s: string)
  {
    match p
    case Text(s) => s
    case Item(_, name) => "[" + name + "]"
  }

  /** The string of the final chat component. */
  function Render(parts: seq<Part>): (s: string)
  {
    if parts == [] then [] else Shown(parts[0]) + Render(parts[1..])
  }

  lemma {:induction false} SourceAppend(a: seq<Part>, b: seq<Part>)
    ensures Source(a + b) == Source(a) + Source(b)
  {
    if a == [] {
      assert a + b == b;
    } else {
      assert (a + b)[0] == a[0];
      assert (a + b)[1..] == a[1..] + b;
      SourceAppend(a[1..], b);
      assert Source(a + b) == SourceOf(a[0]) + Source(a[1..] + b);
    }
  }

  /** The text of a placeholder step: what precedes it, its two characters
      and what follows. */
  lemma SourceOfStep(before: seq<Part>, p: Part, rest: seq<Part>)
    ensures Source(before + [p] + rest) == Source(before) + SourceOf(p) + Source(rest)
  {
    SourceAppend(before + [p], rest);
    SourceAppend(before, [p]);
    SourceSingle(p);
  }

  lemma SourceSingle(p: Part)
    ensures Source([p]) == SourceOf(p)
  {
    assert [p][1..] == [];
  }

  /** Nothing of the message is lost, duplicated or reordered: the parts,
      read back as the text they stand for, are the message itself. */
  lemma {:induction false} PartsCoverMessage(msg: string, slots: map<int, string>, from: nat)
    requires from <= |msg|
    ensures Source(PartsFrom(msg, slots, from)) == msg[from..]
    decreases |msg| - from
  {
    var next := NextPlaceholder(msg, from);
    if next.None? {
      PartsFromEnd(msg, slots, from);
      TextBetweenRule(msg, from, |msg|);
      assert msg[from..|msg|] == msg[from..];
    } else {
      var j := next.value;
      PartsCoverMessage(msg, slots, j + 2);
      PartsFromStep(msg, slots, from, j);
      TextBetweenRule(msg, from, j);
      assert msg[j..j + 2] == ['&', msg[j + 1]];
      SourceAround(msg, from, j, TextBetween(msg, from, j), PlaceholderPart(msg[j + 1], slots), PartsFrom(msg, slots, j + 2));
    }
  }

  /** Parts standing for the text before a placeholder, the placeholder and
      the text after it stand for the whole. */
  lemma SourceAround(msg: string, from: int, j: int, before: seq<Part>, p: Part, rest: seq<Part>)
    requires 0 <= from <= j && j + 2 <= |msg|
    requires Source(before) == msg[from..j] && SourceOf(p) == msg[j..j + 2] && Source(rest) == msg[j + 2..]
    ensures Source(before + [p] + rest) == msg[from..]
  {
    SourceOfStep(before, p, rest);
    SliceAround(msg, from, j);
  }

  lemma SliceAround(msg: string, from: int, j: int)
    requires 0 <= from <= j && j + 2 <= |msg|
    ensures msg[from..] == msg[from..j] + msg[j..j + 2] + msg[j + 2..]
  {
  }

  /** A part the matcher can produce: non-empty text, or the item of a filled
      slot 0..8 under the digit that names it. */
  predicate GoodPart(p: Part, slots: map<int, string>)
  {
    (p.Text? ==> p.s != [])
    && (p.Item? ==> IsDigit(p.digit) && 0 <= SlotOf(p.digit) <= 8 && SlotOf(p.digit) in slots
                    && p.displayName == slots[SlotOf(p.digit)])
  }

  /** Every part is non-empty text or an item of a filled slot 0..8. */
  lemma {:induction false} PartsWellFormed(msg: string, slots: map<int, string>, from: nat)
    requires from <= |msg|
    ensures forall p | p in PartsFrom(msg, slots, from) :: GoodPart(p, slots)
    decreases |msg| - from
  {
    match NextPlaceholder(msg, from)
    case None =>
      PartsFromEnd(msg, slots, from);
    case Some(j) =>
      PartsWellFormed(msg, slots, j + 2);
      PartsFromStep(msg, slots, from, j);
      GoodParts(TextBetween(msg, from, j), PlaceholderPart(msg[j + 1], slots), PartsFrom(msg, slots, j + 2), slots);
  }

  lemma GoodParts(before: seq<Part>, p: Part, rest: seq<Part>, slots: map<int, string>)
    requires forall q | q in before :: GoodPart(q, slots)
    requires GoodPart(p, slots)
    requires forall q | q in rest :: GoodPart(q, slots)
    ensures forall q | q in before + [p] + rest :: GoodPart(q, slots)
  {
  }

  lemma {:induction false} RenderIsSourceWithoutItems(parts: seq<Part>)
    requires forall p | p in parts :: p.Text?
    ensures Render(parts) == Source(parts)
  {
    if parts != [] {
      assert parts[0] in parts;
      assert forall p | p in parts[1..] :: p in parts;
      RenderIsSourceWithoutItems(parts[1..]);
    }
  }

  /** With hotbar slots 0..8 all empty the displayed message equals the
      input. */
  lemma EmptyHotbarKeepsMessage(msg: string, slots: map<int, string>)
    requires forall k | 0 <= k <= 8 :: k !in slots
    ensures Render(PartsFrom(msg, slots, 0)) == msg
  {
    PartsWellFormed(msg, slots, 0);
    RenderIsSourceWithoutItems(PartsFrom(msg, slots, 0));
    PartsCoverMessage(msg, slots, 0);
  }

  /** `&0` is never replaced, and `&d` for d in 1..9 shows the item of slot
      d - 1 exactly when that slot is filled. */
  lemma PlaceholderRule(digit: char, slots: map<int, string>)
    requires IsDigit(digit)
    ensures digit == '0' ==> PlaceholderPart(digit, slots) == Text("&0")
    ensures digit != '0' ==> (PlaceholderPart(digit, slots).Item?
                              <==> (digit as int - '1' as int) in slots)
  {
  }

  /** `matcher.find()` from index `from`. */
  method FindPlaceholder(msg: string, from: nat) returns (r: Option<nat>)
    ensures r == NextPlaceholder(msg, from)
  {
    var i := from;
    while i + 1 < |msg|
      invariant from <= i
      invariant NextPlaceholder(msg, i) == NextPlaceholder(msg, from)
      decreases |msg| - i
    {
      if msg[i] == '&' && IsDigit(msg[i + 1]) {
        return Some(i);
      }
      i := i + 1;
    }
    r := None;
  }

  /** `processItemDisplay`: the matcher loop collecting the parts. */
  method ProcessItemDisplay(message: string, slots: map<int, string>) returns (parts: seq<Part>)
    ensures parts == PartsFrom(message, slots, 0)
  {
    parts := [];
    var lastIndex := 0;
    var next := FindPlaceholder(message, 0);
    while next.Some?
      invariant lastIndex <= |message|
      invariant next == NextPlaceholder(message, lastIndex)
      invariant parts + PartsFrom(message, slots, lastIndex) == PartsFrom(message, slots, 0)
      decreases |message| - lastIndex
    {
      var start := next.value;
      var before := TextBetween(message, lastIndex, start);
      var item := PlaceholderPart(message[start + 1], slots);
      ItemStep(message, slots, parts, lastIndex, start, before, item);
      parts := parts + before + [item];
      lastIndex := start + 2;
      next := FindPlaceholder(message, lastIndex);
    }
    ItemEnd(message, slots, parts, lastIndex);
    parts := parts + TextBetween(message, lastIndex, |message|);
  }

  /** The loop's exit: the text after the last placeholder completes the parts. */
  lemma ItemEnd(msg: string, slots: map<int, string>, done: seq<Part>, from: nat)
    requires from <= |msg| && NextPlaceholder(msg, from) == None
    requires done + PartsFrom(msg, slots, from) == PartsFrom(msg, slots, 0)
    ensures done + TextBetween(msg, from, |msg|) == PartsFrom(msg, slots, 0)
  {
  }

  /** Without a further placeholder the rest of the message is one text part. */
  lemma PartsFromEnd(msg: string, slots: map<int, string>, from: nat)
    requires from <= |msg| && NextPlaceholder(msg, from) == None
    ensures PartsFrom(msg, slots, from) == if from < |msg| then [Text(msg[from..])] else []
  {
    assert msg[from..|msg|] == msg[from..];
  }

  /** One turn of the matcher loop keeps the parts collected so far a prefix
      of the whole message's parts. */
  lemma ItemStep(msg: string, slots: map<int, string>, done: seq<Part>, from: nat, j: nat, before: seq<Part>, item: Part)
    requires from <= |msg| && NextPlaceholder(msg, from) == Some(j)
    requires done + PartsFrom(msg, slots, from) == PartsFrom(msg, slots, 0)
    requires j <= |msg| && before == TextBetween(msg, from, j)
    requires j + 1 < |msg| && item == PlaceholderPart(msg[j + 1], slots)
    ensures done + before + [item] + PartsFrom(msg, slots, j + 2) == PartsFrom(msg, slots, 0)
  {
    PartsFromStep(msg, slots, from, j);
    var c := PartsFrom(msg, slots, j + 2);
    assert done + (before + [item] + c) == done + before + [item] + c;
  }

  // ---------------------------------------------------------------------
  // Mentions

  /** An online player as the mention loop sees them. */
  datatype OnlinePlayer = OnlinePlayer(id: PlayerId, name: string)

  /** `ChatFormatting.AQUA + name + ChatFormatting.RESET`. */
  function Highlight(name: string): (h: string)
    ensures |h| == |name| + 4
  {
    "§b" + name + "§r"
  }

  /** `s.toLowerCase().contains(p.toLowerCase())`. */
  predicate ContainsIgnoreCase(s: string, p: string)
  {
    Contains(Lower(s), Lower(p))
  }

  /** The replacement inserted before every character and at the end, which
      is what a pattern matching the empty string does. */
  function Interleave(s: string, rep: string): (r: string)
    ensures |r| == |s| + (|s| + 1) * |rep|
  {
    if s == [] then rep else rep + [s[0]] + Interleave(s[1..], rep)
  }

  /** `s.replaceAll("(?i)" + Pattern.quote(pat), rep)`: scanning from the
      left, every occurrence of `pat` up to ASCII case becomes `rep`, and the
      scan resumes after it. A match at the scan position is `pat` lower-cased
      at the head of `s` lower-cased. */
  function ReplaceAllIgnoreCase(s: string, pat: string, rep: string): (r: string)
    decreases |s|
  {
    if pat == [] then Interleave(s, rep)
    else if |s| < |pat| then s
    else if OccursAt(Lower(s), Lower(pat), 0) then rep + ReplaceAllIgnoreCase(s[|pat|..], pat, rep)
    else [s[0]] + ReplaceAllIgnoreCase(s[1..], pat, rep)
  }

  /** Lower-casing commutes with dropping the first character. */
  lemma LowerTail(s: string)
    requires s != []
    ensures Lower(s[1..]) == Lower(s)[1..]
  {
  }

  /** An occurrence after the first position is an occurrence in the tail,
      and one in the tail is an occurrence after the first position. */
  lemma OccursInTail(s: string, pat: string, i: nat)
    requires s != []
    ensures OccursAt(Lower(s), Lower(pat), i + 1) <==> OccursAt(Lower(s[1..]), Lower(pat), i)
  {
    LowerTail(s);
    var t, lp := Lower(s), Lower(pat);
    if i + 1 + |lp| <= |t| {
      assert t[1..][i..i + |lp|] == t[i + 1..i + 1 + |lp|];
    }
  }

  /** A message without the pattern, in any case, is left as it is. */
  lemma {:induction false} ReplaceWithoutMatch(s: string, pat: string, rep: string)
    requires pat != [] && !ContainsIgnoreCase(s, pat)
    ensures ReplaceAllIgnoreCase(s, pat, rep) == s
    decreases |s|
  {
    if |s| >= |pat| {
      assert !OccursAt(Lower(s), Lower(pat), 0);
      assert !ContainsIgnoreCase(s[1..], pat) by {
        forall i | 0 <= i <= |Lower(s[1..])|
          ensures !OccursAt(Lower(s[1..]), Lower(pat), i)
        {
          OccursInTail(s, pat, i);
          assert !OccursAt(Lower(s), Lower(pat), i + 1);
        }
      }
      ReplaceWithoutMatch(s[1..], pat, rep);
    }
  }

  /** A message holding the pattern, in some case, grows when the replacement
      is longer than the pattern, so the highlight is always visible. */
  lemma {:induction false} ReplaceWithMatchGrows(s: string, pat: string, rep: string)
    requires pat != [] && |rep| > |pat| && ContainsIgnoreCase(s, pat)
    ensures |ReplaceAllIgnoreCase(s, pat, rep)| > |s|
    decreases |s|
  {
    ReplaceNeverShrinks(s, pat, rep);
    var i :| 0 <= i <= |Lower(s)| && OccursAt(Lower(s), Lower(pat), i);
    if !OccursAt(Lower(s), Lower(pat), 0) {
      assert i > 0;
      OccursInTail(s, pat, i - 1);
      assert ContainsIgnoreCase(s[1..], pat);
      ReplaceWithMatchGrows(s[1..], pat, rep);
    } else {
      ReplaceNeverShrinks(s[|pat|..], pat, rep);
    }
  }

  /** A block at the head of a text is contained in it. */
  lemma ContainsPrefix(p: string, rest: string)
    ensures Contains(p + rest, p)
  {
    assert (p + rest)[0..|p|] == p;
    assert OccursAt(p + rest, p, 0);
  }

  /** A block contained in a text is still contained after a character is
      put in front of it. */
  lemma ContainsAfterCons(c: char, t: string, p: string)
    requires Contains(t, p)
    ensures Contains([c] + t, p)
  {
    var j :| 0 <= j <= |t| && OccursAt(t, p, j);
    assert ([c] + t)[j + 1..j + 1 + |p|] == t[j..j + |p|];
    assert OccursAt([c] + t, p, j + 1);
  }

  /** A message holding the pattern, in some case, comes out holding the
      replacement: every mention is highlighted somewhere. */
  lemma {:induction false} ReplaceInsertsRep(s: string, pat: string, rep: string)
    requires pat != [] && ContainsIgnoreCase(s, pat)
    ensures Contains(ReplaceAllIgnoreCase(s, pat, rep), rep)
    decreases |s|
  {
    var i :| 0 <= i <= |Lower(s)| && OccursAt(Lower(s), Lower(pat), i);
    if OccursAt(Lower(s), Lower(pat), 0) {
      ContainsPrefix(rep, ReplaceAllIgnoreCase(s[|pat|..], pat, rep));
    } else {
      assert i > 0;
      OccursInTail(s, pat, i - 1);
      assert ContainsIgnoreCase(s[1..], pat);
      ReplaceInsertsRep(s[1..], pat, rep);
      ContainsAfterCons(s[0], ReplaceAllIgnoreCase(s[1..], pat, rep), rep);
    }
  }

  lemma {:induction false} ReplaceNeverShrinks(s: string, pat: string, rep: string)
    requires pat != [] && |rep| >= |pat|
    ensures |ReplaceAllIgnoreCase(s, pat, rep)| >= |s|
    decreases |s|
  {
    if |s| >= |pat| {
      if OccursAt(Lower(s), Lower(pat), 0) {
        ReplaceNeverShrinks(s[|pat|..], pat, rep);
      } else {
        ReplaceNeverShrinks(s[1..], pat, rep);
      }
    }
  }

  /** Whether `target` is notified of the message: another player whose name
      the original message contains, ignoring case. */
  predicate Mentioned(message: string, sender: PlayerId, target: OnlinePlayer)
  {
    target.id != sender && ContainsIgnoreCase(message, target.name)
  }

  /** The mention loop over the online players from `acc`: each mentioned
      player's name is highlighted in the text rewritten so far. */
  function HighlightOthers(message: string, sender: PlayerId, players: seq<OnlinePlayer>, acc: string): (r: string)
    decreases |players|
  {
    if players == [] then acc
    else
      var p := players[0];
      var acc' := if Mentioned(message, sender, p) then ReplaceAllIgnoreCase(acc, p.name, Highlight(p.name)) else acc;
      HighlightOthers(message, sender, players[1..], acc')
  }

  /** The players notified, in the order of the online list. */
  function Notified(message: string, sender: PlayerId, players: seq<OnlinePlayer>): (r: seq<PlayerId>)
    ensures forall id :: id in r <==> exists p | p in players :: p.id == id && Mentioned(message, sender, p)
    ensures sender !in r
  {
    if players == [] then []
    else
      var rest := Notified(message, sender, players[1..]);
      assert forall p | p in players :: p == players[0] || p in players[1..];
      if Mentioned(message, sender, players[0]) then [players[0].id] + rest else rest
  }

  /** `processMentions`: the loop over the other players, then the sender's
      own name, highlighted only when the rewritten text contains it with its
      exact case. */
  function Mentions(message: string, sender: OnlinePlayer, players: seq<OnlinePlayer>): (r: string)
  {
    var processed := HighlightOthers(message, sender.id, players, message);
    if Contains(processed, sender.name) then ReplaceAllIgnoreCase(processed, sender.name, Highlight(sender.name))
    else processed
  }

  lemma {:induction false} HighlightOthersUnchanged(message: string, sender: PlayerId, players: seq<OnlinePlayer>, acc: string)
    requires forall p | p in players :: !Mentioned(message, sender, p)
    ensures HighlightOthers(message, sender, players, acc) == acc
    decreases |players|
  {
    if players != [] {
      assert players[0] in players;
      assert forall p | p in players[1..] :: p in players;
      HighlightOthersUnchanged(message, sender, players[1..], acc);
    }
  }

  /** A message that names no other online player, and not the sender with
      the exact case, is passed on unchanged. */
  lemma MentionsWithoutNamesUnchanged(message: string, sender: OnlinePlayer, players: seq<OnlinePlayer>)
    requires forall p | p in players :: !Mentioned(message, sender.id, p)
    requires !Contains(message, sender.name)
    ensures Mentions(message, sender, players) == message
  {
    HighlightOthersUnchanged(message, sender.id, players, message);
  }

  /** When the only other online player is mentioned, with a non-empty name,
      the loop rewrites the message: the player's highlighted name appears in
      it, and it comes out longer. With several players this can fail; see
      `OverlappingNamesBreakHighlight`. */
  lemma {:induction false} MentionHighlights(message: string, sender: PlayerId, p: OnlinePlayer)
    requires Mentioned(message, sender, p) && p.name != []
    ensures Contains(HighlightOthers(message, sender, [p], message), Highlight(p.name))
    ensures |HighlightOthers(message, sender, [p], message)| > |message|
  {
    ReplaceInsertsRep(message, p.name, Highlight(p.name));
    ReplaceWithMatchGrows(message, p.name, Highlight(p.name));
    assert HighlightOthers(message, sender, [p], message)
           == HighlightOthers(message, sender, [], ReplaceAllIgnoreCase(message, p.name, Highlight(p.name)));
  }

  /** Highlighting "a" in "ab". */
  lemma HighlightAInAb()
    ensures ReplaceAllIgnoreCase("ab", "a", Highlight("a")) == "§ba§rb"
  {
    assert Lower("ab") == "ab";
    assert Lower("b") == "b";
    assert OccursAt(Lower("ab"), Lower("a"), 0);
    assert !OccursAt(Lower("b"), Lower("a"), 0);
    assert ReplaceAllIgnoreCase("b", "a", Highlight("a")) == "b";
  }

  /** "ab" no longer occurs, in any case, once "a" is highlighted in it. */
  lemma NoAbAfterHighlight()
    ensures !ContainsIgnoreCase("§ba§rb", "ab")
  {
    var t := "§ba§rb";
    assert Lower(t) == t;
    assert Lower("ab") == "ab";
    forall i | 0 <= i <= |t|
      ensures !OccursAt(t, "ab", i)
    {
      if i <= |t| - 2 {
        assert t[i..i + 2][0] == t[i] && t[i..i + 2][1] == t[i + 1];
      }
    }
  }

  /** Both "a" and "ab" are mentioned in the message "ab". */
  lemma BothMentionedInAb()
    ensures Mentioned("ab", 0, OnlinePlayer(1, "a")) && Mentioned("ab", 0, OnlinePlayer(2, "ab"))
  {
    assert Lower("ab") == "ab";
    assert Lower("a") == "a";
    assert OccursAt(Lower("ab"), Lower("a"), 0);
    assert OccursAt(Lower("ab"), Lower("ab"), 0);
  }

  /** The loop over "a" and then "ab" on the message "ab". */
  lemma HighlightAThenAb()
    ensures HighlightOthers("ab", 0, [OnlinePlayer(1, "a"), OnlinePlayer(2, "ab")], "ab") == "§ba§rb"
  {
    var players := [OnlinePlayer(1, "a"), OnlinePlayer(2, "ab")];
    BothMentionedInAb();
    HighlightAInAb();
    NoAbAfterHighlight();
    ReplaceWithoutMatch("§ba§rb", "ab", Highlight("ab"));
    assert players[1..] == [OnlinePlayer(2, "ab")];
    assert HighlightOthers("ab", 0, [OnlinePlayer(2, "ab")], "§ba§rb") == HighlightOthers("ab", 0, [], "§ba§rb");
  }

  /** With several online players each replacement works on the text the
      earlier ones produced, so an overlapping name can be notified without
      being highlighted: for players "a" and "ab" and the message "ab", both
      are mentioned, yet the result holds only the highlight of "a". */
  lemma OverlappingNamesBreakHighlight()
    ensures Mentioned("ab", 0, OnlinePlayer(1, "a")) && Mentioned("ab", 0, OnlinePlayer(2, "ab"))
    ensures !Contains(HighlightOthers("ab", 0, [OnlinePlayer(1, "a"), OnlinePlayer(2, "ab")], "ab"), Highlight("ab"))
  {
    BothMentionedInAb();
    HighlightAThenAb();
    var t := "§ba§rb";
    assert Highlight("ab") == "§bab§r";
    forall i | 0 <= i <= |t|
      ensures !OccursAt(t, Highlight("ab"), i)
    {
      if i == 0 {
        assert t[0..6][3] != Highlight("ab")[3];
      }
    }
  }

  /** `processMentions` as the source's loop, with the players it notifies. */
  method ProcessMentions(message: string, sender: OnlinePlayer, players: seq<OnlinePlayer>)
    returns (processed: string, notified: seq<PlayerId>)
    ensures processed == Mentions(message, sender, players)
    ensures notified == Notified(message, sender.id, players)
  {
    processed := message;
    notified := [];
    var i := 0;
    while i < |players|
      invariant 0 <= i <= |players|
      invariant HighlightOthers(message, sender.id, players[i..], processed)
                == HighlightOthers(message, sender.id, players, message)
      invariant notified + Notified(message, sender.id, players[i..]) == Notified(message, sender.id, players)
    {
      var target := players[i];
      assert players[i..][0] == target && players[i..][1..] == players[i + 1..];
      if target.id != sender.id && ContainsIgnoreCase(message, target.name) {
        processed := ReplaceAllIgnoreCase(processed, target.name, Highlight(target.name));
        notified := notified + [target.id];
      }
      i := i + 1;
    }
    if Contains(processed, sender.name) {
      processed := ReplaceAllIgnoreCase(processed, sender.name, Highlight(sender.name));
    }
  }

  /** `onServerChat`: mentions first, then the item placeholders of the
      rewritten text. */
  method OnServerChat(rawText: string, sender: OnlinePlayer, players: seq<OnlinePlayer>, slots: map<int, string>)
    returns (shown: string, notified: seq<PlayerId>)
    ensures shown == Render(PartsFrom(Mentions(rawText, sender, players), slots, 0))
    ensures notified == Notified(rawText, sender.id, players)
  {
    var processed;
    processed, notified := ProcessMentions(rawText, sender, players);
    var parts := ProcessItemDisplay(processed, slots);
    shown := Render(parts);
  }
}
