/** Machine-level vocabulary shared by every component: bytes, 32-bit words and little-endian access. */
module Basics {
  datatype Option<+T> = None | Some(value: T)

  type byte = x: int | 0 <= x < 0x100
  type word = x: int | 0 <= x < 0x1_0000_0000

  const TWO32: int := 0x1_0000_0000

  /** Bytes of a page and of a frame. */
  const PAGE: nat := 4096

  /** Truncation to an unsigned 32-bit value. */
  function U32(x: int): word { x % TWO32 }

  /** The little-endian word stored at offset `a`. */
  function Word(m: seq<byte>, a: nat): word
    requires a + 4 <= |m|
  {
    m[a] as int + 0x100 * m[a + 1] as int + 0x1_0000 * m[a + 2] as int + 0x100_0000 * m[a + 3] as int
  }

  /** Lowest byte first: each byte is what the word has in its place. */
  lemma WordBytes(m: seq<byte>, a: nat)
    requires a + 4 <= |m|
    ensures Word(m, a) == m[a] as int + 0x100 * m[a + 1] as int + 0x1_0000 * m[a + 2] as int + 0x100_0000 * m[a + 3] as int
    ensures var w := Word(m, a);
            && m[a] == w % 0x100 && m[a + 1] == w / 0x100 % 0x100
            && m[a + 2] == w / 0x1_0000 % 0x100 && m[a + 3] == w / 0x100_0000
  {
    Digits(m[a], m[a + 1], m[a + 2], m[a + 3]);
  }

  lemma Digits(a: byte, b: byte, c: byte, d: byte)
    ensures var w := a as int + 0x100 * b as int + 0x1_0000 * c as int + 0x100_0000 * d as int;
            a == w % 0x100 && b == w / 0x100 % 0x100 && c == w / 0x1_0000 % 0x100 && d == w / 0x100_0000
  {
    var r: int := d;
    var q: int := c + 0x100 * r;
    var p: int := b + 0x100 * q;
    var w: int := a + 0x100 * p;
    assert w / 0x100 == p && p / 0x100 == q && q / 0x100 == r;
    assert w / 0x1_0000 == w / 0x100 / 0x100 && w / 0x100_0000 == w / 0x1_0000 / 0x100;
  }

  /** `m` and `n` hold the same bytes everywhere except in `[a, a + len)`. */
  ghost predicate SameOutside(m: seq<byte>, n: seq<byte>, a: nat, len: nat) {
    |m| == |n| && forall k | 0 <= k < |m| && !(a <= k < a + len) :: n[k] == m[k]
  }

  /** More numbers below `m` than there are: one occurs twice. */
  lemma {:induction false} Pigeonhole(s: seq<nat>, m: nat)
    requires |s| > m && forall i | 0 <= i < |s| :: s[i] < m
    ensures exists i, j :: 0 <= i < j < |s| && s[i] == s[j]
    decreases m
  {
    assert s[0] < m;
    if k :| 0 <= k < |s| && s[k] == m - 1 {
      if l :| 0 <= l < |s| && l != k && s[l] == m - 1 {
        assert s[if k < l then k else l] == s[if k < l then l else k];
      } else {
        var t := s[..k] + s[k + 1..];
        assert forall i | 0 <= i < |t| :: t[i] == s[if i < k then i else i + 1];
        Pigeonhole(t, m - 1);
        var i, j :| 0 <= i < j < |t| && t[i] == t[j];
        assert s[if i < k then i else i + 1] == s[if j < k then j else j + 1];
      }
    } else {
      Pigeonhole(s, m - 1);
    }
  }
}
