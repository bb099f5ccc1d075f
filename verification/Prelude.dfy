/** Option values, bounded integers and the ASCII string operations the indexer relies on. */
module Prelude {

  datatype Option<+T> = None | Some(value: T) {
    function GetOr(default: T): T {
      match this
      case Some(v) => v
      case None => default
    }
  }

  /** The largest `u64`; every checked or saturating addition of the source is measured against it. */
  const U64_MAX: nat := 0xFFFF_FFFF_FFFF_FFFF

  type u64 = n: nat | n <= U64_MAX

  function SaturatingAdd(a: nat, b: nat): nat {
    if a + b <= U64_MAX then a + b else U64_MAX
  }

  function SaturatingSub(a: nat, b: nat): nat {
    if b <= a then a - b else 0
  }

  /** Saturating arithmetic, stated by what it is compared with. */
  lemma SaturatingBounds(a: nat, b: nat, c: nat)
    ensures SaturatingSub(a, b) <= c <==> a <= b + c
    ensures c <= U64_MAX ==> (c <= SaturatingAdd(a, b) <==> c <= a + b)
    ensures SaturatingAdd(a, b) <= U64_MAX
  {
  }

  function Min(a: int, b: int): int {
    if a <= b then a else b
  }

  function Max(a: int, b: int): int {
    if a <= b then b else a
  }

  // ---- ASCII case folding ----

  function LowerChar(c: char): char {
    if 'A' <= c <= 'Z' then (c as int + 32) as char else c
  }

  function Lower(s: string): (r: string)
    ensures |r| == |s|
  {
    seq(|s|, i requires 0 <= i < |s| => LowerChar(s[i]))
  }

  predicate EqIgnoreAsciiCase(a: string, b: string) {
    Lower(a) == Lower(b)
  }

  lemma LowerIdempotent(s: string)
    ensures Lower(Lower(s)) == Lower(s)
  {
    assert forall i :: 0 <= i < |s| ==> Lower(Lower(s))[i] == Lower(s)[i];
  }

  /** The capital and the small letter of one place in the alphabet. */
  predicate LetterPair(c: char, d: char) {
    var capitals, smalls := "ABCDEFGHIJKLMNOPQRSTUVWXYZ", "abcdefghijklmnopqrstuvwxyz";
    exists k :: 0 <= k < 26 && capitals[k] == c && smalls[k] == d
  }

  lemma LetterPairs(c: char, d: char)
    ensures LetterPair(c, d) <==> 'A' <= c <= 'Z' && d as int == c as int + 32
  {
    var capitals, smalls := "ABCDEFGHIJKLMNOPQRSTUVWXYZ", "abcdefghijklmnopqrstuvwxyz";
    assert forall k :: 0 <= k < 26 ==> capitals[k] as int == 65 + k && smalls[k] as int == 97 + k;
    if 'A' <= c <= 'Z' && d as int == c as int + 32 {
      var k := c as int - 65;
      assert capitals[k] == c && smalls[k] == d;
    }
  }

  /** Folding replaces each capital letter by its small letter and keeps everything else. */
  lemma LowerIs(s: string, i: nat)
    requires i < |s|
    ensures LetterPair(s[i], Lower(s)[i]) || (s[i] == Lower(s)[i] && forall d :: !LetterPair(s[i], d))
  {
    LetterPairs(s[i], Lower(s)[i]);
    forall d
      ensures LetterPair(s[i], d) <==> 'A' <= s[i] <= 'Z' && d as int == s[i] as int + 32
    {
      LetterPairs(s[i], d);
    }
  }

  /** Two texts are equal ignoring case if and only if they differ in the case of letters only. */
  lemma EqualIgnoringCaseIff(a: string, b: string)
    ensures EqIgnoreAsciiCase(a, b)
       <==> |a| == |b| && forall i :: 0 <= i < |a| ==> a[i] == b[i] || LetterPair(a[i], b[i]) || LetterPair(b[i], a[i])
  {
    forall i | 0 <= i < |a| && i < |b|
      ensures Lower(a)[i] == Lower(b)[i] <==> a[i] == b[i] || LetterPair(a[i], b[i]) || LetterPair(b[i], a[i])
    {
      LetterPairs(a[i], b[i]);
      LetterPairs(b[i], a[i]);
    }
    if EqIgnoreAsciiCase(a, b) {
      assert |a| == |Lower(a)| == |Lower(b)| == |b|;
    } else if |a| == |b| {
      var i :| 0 <= i < |a| && Lower(a)[i] != Lower(b)[i];
    }
  }

  // ---- The order on text ids: code-point lexicographic ----

  predicate StrLess(a: string, b: string)
    decreases |a|
  {
    if b == "" then false
    else if a == "" then true
    else a[0] < b[0] || (a[0] == b[0] && StrLess(a[1..], b[1..]))
  }

  lemma {:induction false} StrLessIrreflexive(a: string)
    ensures !StrLess(a, a)
  {
    if a != "" {
      StrLessIrreflexive(a[1..]);
    }
  }

  lemma {:induction false} StrLessTotal(a: string, b: string)
    ensures a == b || StrLess(a, b) || StrLess(b, a)
  {
    if a != "" && b != "" && a[0] == b[0] {
      StrLessTotal(a[1..], b[1..]);
      assert a == [a[0]] + a[1..] && b == [b[0]] + b[1..];
    }
  }

  lemma {:induction false} StrLessTransitive(a: string, b: string, c: string)
    requires StrLess(a, b) && StrLess(b, c)
    ensures StrLess(a, c)
  {
    if a != "" && a[0] == b[0] && b[0] == c[0] {
      StrLessTransitive(a[1..], b[1..], c[1..]);
    }
  }

  /** One text is before another if and only if it is a proper beginning of it, or smaller at the first place
      where they differ. */
  lemma {:induction false} StrLessIff(a: string, b: string)
    ensures StrLess(a, b)
       <==> exists k: nat :: k <= |a| && k < |b| && a[..k] == b[..k] && (k == |a| || a[k] < b[k])
  {
    if b != "" && a != "" {
      StrLessIff(a[1..], b[1..]);
      if StrLess(a, b) && a[0] == b[0] {
        var k: nat :| k < |b[1..]| && k <= |a[1..]| && a[1..][..k] == b[1..][..k]
                      && (k == |a[1..]| || a[1..][k] < b[1..][k]);
        assert a[..k + 1] == [a[0]] + a[1..][..k] && b[..k + 1] == [b[0]] + b[1..][..k];
      } else if StrLess(a, b) {
        assert a[..0] == b[..0];
      }
      if k: nat :| k <= |a| && k < |b| && a[..k] == b[..k] && (k == |a| || a[k] < b[k]) {
        if k > 0 {
          assert a[0] == a[..k][0] == b[..k][0] == b[0];
          assert a[1..][..k - 1] == a[..k][1..] && b[1..][..k - 1] == b[..k][1..];
          assert StrLess(a[1..], b[1..]);
        }
      }
    } else if b != "" {
      assert a[..0] == b[..0];
    }
  }
}
