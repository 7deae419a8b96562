/** Shared vocabulary of the plugin: player ids, positions, optional values,
    Java's 32-bit integer arithmetic and the ASCII case folding the chat and
    command code relies on. */
module Common {

  /** A player's UUID. The code only compares ids and uses them as map keys. */
  type PlayerId = nat

  /** A dimension's resource location, such as "minecraft:overworld". */
  type Dimension = string

  /** A stored location: dimension, coordinates and rotations. Coordinates are
      doubles and rotations floats in the game; nothing here computes with them. */
  datatype Position = Position(dimension: Dimension, x: real, y: real, z: real, yRot: real, xRot: real)

  datatype Option<T> = None | Some(value: T)

  /** `map.getOrDefault(key, false)` on a map of booleans. */
  function FlagOf<K>(m: map<K, bool>, k: K): (b: bool)
    ensures b <==> k in m && m[k]
  {
    if k in m then m[k] else false
  }

  const IntMin: int := -0x8000_0000
  const IntMax: int := 0x7fff_ffff

  predicate IsInt32(x: int) { IntMin <= x <= IntMax }

  /** Two's-complement wrap-around of a mathematical integer into Java's `int`. */
  function Wrap32(x: int): (r: int)
    ensures IsInt32(r)
    ensures (r - x) % 0x1_0000_0000 == 0
    ensures IsInt32(x) ==> r == x
  {
    var m := (x - IntMin) % 0x1_0000_0000;
    m + IntMin
  }

  /** Java's `int * int`: the exact product, wrapped to 32 bits. */
  function JavaIntMul(a: int, b: int): (r: int)
    ensures IsInt32(r)
    ensures IsInt32(a * b) ==> r == a * b
  {
    Wrap32(a * b)
  }

  /** Java's integer division, which truncates toward zero. */
  function JavaDiv(a: int, b: int): (q: int)
    requires b > 0
    ensures a >= 0 ==> q == a / b
    ensures a < 0 ==> q == -((-a) / b)
  {
    if a >= 0 then a / b else -((-a) / b)
  }

  /** ASCII lower-casing of one character, as `(?i)` regex matching and the
      name comparisons of the plugin use for Minecraft player names. */
  function LowerChar(c: char): (d: char)
    ensures 'A' <= c <= 'Z' ==> d as int == c as int + 32
    ensures !('A' <= c <= 'Z') ==> d == c
  {
    if 'A' <= c <= 'Z' then (c as int + 32) as char else c
  }

  function Lower(s: string): (t: string)
    ensures |t| == |s|
    ensures forall i :: 0 <= i < |s| ==> t[i] == LowerChar(s[i])
  {
    if s == [] then [] else [LowerChar(s[0])] + Lower(s[1..])
  }

  /** `a.equalsIgnoreCase(b)` restricted to ASCII folding. */
  predicate EqualsIgnoreCase(a: string, b: string)
  {
    Lower(a) == Lower(b)
  }

  /** p occurs in s starting at index i. */
  predicate OccursAt(s: string, p: string, i: int)
  {
    0 <= i <= |s| - |p| && s[i..i + |p|] == p
  }

  /** `s.contains(p)`: p occurs in s as a contiguous block. */
  predicate Contains(s: string, p: string)
  {
    exists i | 0 <= i <= |s| :: OccursAt(s, p, i)
  }
}
