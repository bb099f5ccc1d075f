/** The SQL LIKE pattern that finds signature rows by the block anchor they were sourced from
    (src/database.rs), against the id built for them (src/schema/types.rs). */
module SignatureIds {
  import opened Prelude
  import opened Schema

  /** SQL LIKE: `%` is any run of characters, `_` any one character, a backslash escapes. */
  predicate Like(pattern: string, s: string)
    decreases |pattern|, |s|
  {
    if pattern == "" then s == ""
    else if pattern[0] == '%' then
      Like(pattern[1..], s) || (s != "" && Like(pattern, s[1..]))
    else if pattern[0] == '\\' && |pattern| >= 2 then
      s != "" && s[0] == pattern[1] && Like(pattern[2..], s[1..])
    else s != "" && (pattern[0] == '_' || pattern[0] == s[0]) && Like(pattern[1..], s[1..])
  }

  /** LPAD pads on the left and, unlike Rust's formatting, cuts a longer text down. */
  function LPad(s: string, width: nat): string {
    if |s| <= width then PadLeft(width, s) else s[..width]
  }

  function AnchorPrefix(blockNumber: nat, blockHash: string): string {
    LPad(Decimal(blockNumber), 10) + "-" + HashPrefix(blockHash) + "-"
  }

  function AnchorPattern(blockNumber: nat, blockHash: string): string {
    AnchorPrefix(blockNumber, blockHash) + "%"
  }

  /** LIKE element by element (PostgreSQL manual, section 9.7.1): a percent sign stands for any run of characters, an
      underscore for any one, an escaped character and an ordinary one for themselves. */
  lemma LikeElements(c: char, p: string, s: string)
    ensures Like("", s) <==> s == ""
    ensures Like("%" + p, s) <==> exists i: nat :: i <= |s| && Like(p, s[i..])
    ensures Like("_" + p, s) <==> s != "" && Like(p, s[1..])
    ensures Like("\\" + [c] + p, s) <==> s != "" && s[0] == c && Like(p, s[1..])
    ensures c != '%' && c != '_' && c != '\\' ==> (Like([c] + p, s) <==> s != "" && s[0] == c && Like(p, s[1..]))
  {
    AnyRun(p, s);
    assert ("_" + p)[1..] == p && ("\\" + [c] + p)[2..] == p && ([c] + p)[1..] == p;
  }

  lemma {:induction false} AnyRun(p: string, s: string)
    ensures Like("%" + p, s) <==> exists i: nat :: i <= |s| && Like(p, s[i..])
  {
    assert ("%" + p)[1..] == p && s[0..] == s;
    if s != "" {
      AnyRun(p, s[1..]);
      if i: nat :| i <= |s| && Like(p, s[i..]) {
        assert i > 0 ==> s[1..][i - 1..] == s[i..];
      }
      if Like("%" + p, s[1..]) {
        var i: nat :| i <= |s[1..]| && Like(p, s[1..][i..]);
        assert s[1..][i..] == s[i + 1..];
      }
    }
  }

  // ---- LIKE with a literal prefix ----

  predicate Literal(s: string) {
    forall i :: 0 <= i < |s| ==> s[i] != '%' && s[i] != '_' && s[i] != '\\'
  }

  lemma {:induction false} PercentMatchesAll(s: string)
    ensures Like("%", s)
  {
    if s != "" {
      PercentMatchesAll(s[1..]);
    }
  }

  lemma {:induction false} LiteralPrefixMatch(p: string, s: string)
    requires Literal(p)
    ensures Like(p + "%", s) <==> p <= s
  {
    if p == "" {
      assert p + "%" == "%";
      PercentMatchesAll(s);
    } else {
      assert (p + "%")[0] == p[0] && (p + "%")[1..] == p[1..] + "%";
      if s != "" {
        LiteralPrefixMatch(p[1..], s[1..]);
        if p[0] == s[0] && p[1..] <= s[1..] {
          assert p == [p[0]] + p[1..] && s == [s[0]] + s[1..];
        }
      }
    }
  }

  // ---- Decimal text ----

  predicate IsDigit(c: char) {
    '0' <= c <= '9'
  }

  predicate AllDigits(s: string) {
    forall i :: 0 <= i < |s| ==> IsDigit(s[i])
  }

  function DecimalValue(s: string): nat
    requires AllDigits(s)
  {
    if s == "" then 0 else 10 * DecimalValue(s[..|s| - 1]) + (s[|s| - 1] as int - '0' as int)
  }

  lemma {:induction false} DecimalRoundTrip(n: nat)
    ensures AllDigits(Decimal(n)) && DecimalValue(Decimal(n)) == n
  {
    var s := Decimal(n);
    if n >= 10 {
      DecimalRoundTrip(n / 10);
      assert s[..|s| - 1] == Decimal(n / 10);
    } else {
      assert s[..0] == "";
    }
  }

  lemma {:induction false} PaddedValue(k: nat, s: string)
    requires AllDigits(s)
    ensures AllDigits(Zeros(k) + s) && DecimalValue(Zeros(k) + s) == DecimalValue(s)
    decreases |s|, k
  {
    var t := Zeros(k) + s;
    if s != "" {
      PaddedValue(k, s[..|s| - 1]);
      assert t[..|t| - 1] == Zeros(k) + s[..|s| - 1];
    } else if k > 0 {
      PaddedValue(k - 1, s);
      assert t[..|t| - 1] == Zeros(k - 1) + s;
    }
  }

  function Pow10(k: nat): nat {
    if k == 0 then 1 else 10 * Pow10(k - 1)
  }

  lemma {:induction false} DecimalLength(n: nat, k: nat)
    requires k >= 1
    ensures |Decimal(n)| <= k <==> n < Pow10(k)
  {
    if n >= 10 {
      if k == 1 {
        assert Pow10(1) == 10 * Pow10(0) == 10;
      } else {
        DecimalLength(n / 10, k - 1);
      }
    } else {
      PowersOfTenGrow(k);
    }
  }

  lemma {:induction false} PowersOfTenGrow(k: nat)
    requires k >= 1
    ensures Pow10(k) >= 10
  {
    if k > 1 {
      PowersOfTenGrow(k - 1);
    } else {
      assert Pow10(1) == 10 * Pow10(0);
    }
  }

  /** The first height whose decimal text no longer fits the ten digits of an id. */
  const ID_HEIGHT_LIMIT: nat := 10_000_000_000

  lemma HeightText(n: nat)
    ensures AllDigits(Decimal(n)) && (|Decimal(n)| <= 10 <==> n < ID_HEIGHT_LIMIT)
    ensures n < ID_HEIGHT_LIMIT ==>
              && LPad(Decimal(n), 10) == PadLeft(10, Decimal(n))
              && AllDigits(PadLeft(10, Decimal(n))) && DecimalValue(PadLeft(10, Decimal(n))) == n
  {
    DecimalRoundTrip(n);
    DecimalLength(n, 10);
    assert Pow10(10) == 10_000_000_000 by {
      assert Pow10(2) == 100;
      assert Pow10(4) == 10_000;
      assert Pow10(6) == 1_000_000;
      assert Pow10(8) == 100_000_000;
    }
    if |Decimal(n)| < 10 {
      PaddedValue(10 - |Decimal(n)|, Decimal(n));
    }
  }

  // ---- Which ids a pattern matches ----

  predicate IsHexDigit(c: char) {
    '0' <= c <= '9' || 'a' <= c <= 'f' || 'A' <= c <= 'F'
  }

  predicate IsHexHash(h: string) {
    var digits := StripHexPrefix(h);
    forall i :: 0 <= i < |digits| ==> IsHexDigit(digits[i])
  }

  lemma HashPrefixIsLiteral(h: string)
    requires IsHexHash(h)
    ensures Literal(HashPrefix(h)) && '-' !in HashPrefix(h)
  {
    var digits := StripHexPrefix(h);
    forall i | 0 <= i < |HashPrefix(h)|
      ensures HashPrefix(h)[i] == LowerChar(digits[i])
    {
    }
  }

  /** Up to its first dash, a text is determined by any common continuation. */
  lemma DashSeparates(a: string, b: string, rest: string)
    requires '-' !in a && '-' !in b
    ensures a + "-" <= b + "-" + rest <==> a == b
  {
    var whole := b + "-" + rest;
    assert |a| < |b| ==> whole[|a|] == b[|a|];
    assert |b| < |a| ==> whole[|b|] == '-' && (a + "-")[|b|] == a[|b|];
    assert whole[..|b| + 1] == b + "-";
    if a + "-" <= whole {
      assert (a + "-")[|a|] == '-';
      assert a == (a + "-")[..|a|] == whole[..|a|];
    }
  }

  lemma PrefixOfParts(p: string, q: string, a: string, b: string)
    requires |p| == |q|
    ensures p + a <= q + b <==> p == q && a <= b
  {
    if p + a <= q + b {
      assert p == (p + a)[..|p|] == (q + b)[..|p|] == q;
      forall i | 0 <= i < |a|
        ensures a[i] == b[i]
      {
        assert (p + a)[|p| + i] == (q + b)[|p| + i];
      }
    }
    if p == q && a <= b {
      assert p + a == (q + b)[..|p + a|];
    }
  }

  /** For heights below 10^10 and hex hashes, the pattern of an anchor matches a legacy id exactly
      when the id was built for that height and that five-digit hash prefix. */
  lemma PatternMatchesExactly(blockNumber: nat, anchorHash: string, m: Metadata)
    requires blockNumber < ID_HEIGHT_LIMIT && m.blockNumber < ID_HEIGHT_LIMIT
    requires m.blockHash.Some? && IsHexHash(anchorHash) && IsHexHash(m.blockHash.value)
    ensures Like(AnchorPattern(blockNumber, anchorHash), LegacyEventLogId(m))
       <==> blockNumber == m.blockNumber && HashPrefix(anchorHash) == HashPrefix(m.blockHash.value)
  {
    hide PadLeft, PadInt, Decimal, HashPrefix, IsHexHash, Like, DecimalValue;
    var p, q := PadLeft(10, Decimal(blockNumber)), PadLeft(10, Decimal(m.blockNumber));
    var a, b := HashPrefix(anchorHash), HashPrefix(m.blockHash.value);
    var rest := PadInt(6, m.logIndex);
    HeightText(blockNumber);
    HeightText(m.blockNumber);
    HashPrefixIsLiteral(anchorHash);
    HashPrefixIsLiteral(m.blockHash.value);
    assert AnchorPrefix(blockNumber, anchorHash) == p + "-" + a + "-";
    LiteralPrefixMatch(p + "-" + a + "-", LegacyEventLogId(m));
    DashedPartsAgree(p, q, a, b, rest);
    assert p == q ==> blockNumber == m.blockNumber;
  }

  lemma DashedPartsAgree(p: string, q: string, a: string, b: string, rest: string)
    requires |p| == |q| && '-' !in a && '-' !in b
    ensures p + "-" + a + "-" <= q + "-" + b + "-" + rest <==> p == q && a == b
  {
    assert p + "-" + a + "-" == p + ("-" + (a + "-"));
    assert q + "-" + b + "-" + rest == q + ("-" + (b + "-" + rest));
    PrefixOfParts(p, q, "-" + (a + "-"), "-" + (b + "-" + rest));
    PrefixOfParts("-", "-", a + "-", b + "-" + rest);
    DashSeparates(a, b, rest);
  }

  /** A row is found through the anchor of its own block exactly when its height has at most ten digits:
      beyond that the pattern is cut to ten digits while the id is not. */
  lemma OwnAnchorFindsRow(m: Metadata)
    requires m.blockHash.Some? && IsHexHash(m.blockHash.value)
    ensures Like(AnchorPattern(m.blockNumber, m.blockHash.value), LegacyEventLogId(m))
       <==> m.blockNumber < ID_HEIGHT_LIMIT
  {
    var n, h := m.blockNumber, m.blockHash.value;
    HeightText(n);
    HashPrefixIsLiteral(h);
    if n < ID_HEIGHT_LIMIT {
      PatternMatchesExactly(n, h, m);
    } else {
      var prefix := AnchorPrefix(n, h);
      assert Literal(prefix);
      LiteralPrefixMatch(prefix, LegacyEventLogId(m));
      assert prefix[10] == '-';
      assert LegacyEventLogId(m)[10] == Decimal(n)[10];
    }
  }

  // ---- Which logs share an id ----

  lemma PadLeftIsInjective(width: nat, m: nat, n: nat)
    ensures AllDigits(PadLeft(width, Decimal(n))) && PadLeft(width, Decimal(n)) != ""
    ensures PadLeft(width, Decimal(m)) == PadLeft(width, Decimal(n)) <==> m == n
  {
    PaddedDecimal(width, m);
    PaddedDecimal(width, n);
  }

  lemma PaddedDecimal(width: nat, n: nat)
    ensures AllDigits(PadLeft(width, Decimal(n))) && DecimalValue(PadLeft(width, Decimal(n))) == n
  {
    DecimalRoundTrip(n);
    if |Decimal(n)| < width {
      PaddedValue(width - |Decimal(n)|, Decimal(n));
    }
  }

  lemma PadIntIsInjective(width: nat, m: int, n: int)
    ensures PadInt(width, m) == PadInt(width, n) <==> m == n
  {
    var shorter := if width > 0 then width - 1 else 0;
    PadLeftIsInjective(width, if m >= 0 then m else 0, if n >= 0 then n else 0);
    PadLeftIsInjective(shorter, if m >= 0 then 0 else -m, if n >= 0 then 0 else -n);
    PadLeftIsInjective(width, 0, if m >= 0 then m else 0);
    assert m >= 0 ==> PadInt(width, m)[0] != '-';
    assert n >= 0 ==> PadInt(width, n)[0] != '-';
    assert m < 0 ==> PadInt(width, m)[0] == '-' && PadInt(width, m)[1..] == PadLeft(shorter, Decimal(-m));
    assert n < 0 ==> PadInt(width, n)[0] == '-' && PadInt(width, n)[1..] == PadLeft(shorter, Decimal(-n));
  }

  lemma SplitAtDash(a: string, b: string, x: string, y: string)
    requires '-' !in a && '-' !in b
    ensures a + "-" + x == b + "-" + y <==> a == b && x == y
  {
    if a + "-" + x == b + "-" + y {
      assert a + "-" <= a + "-" + x;
      DashSeparates(a, b, y);
      assert (a + "-" + x)[|a| + 1..] == x && (b + "-" + y)[|b| + 1..] == y;
    }
  }

  lemma DigitsHaveNoDash(s: string)
    requires AllDigits(s)
    ensures '-' !in s
  {
  }

  /** With hex hashes, two logs get the same id if and only if they agree on height, five-digit hash prefix and log
      index: so within one world, equal ids of the tables keyed by them mean the same log. */
  lemma IdNamesItsLog(a: Metadata, b: Metadata)
    requires a.blockHash.Some? && b.blockHash.Some? && IsHexHash(a.blockHash.value) && IsHexHash(b.blockHash.value)
    ensures LegacyEventLogId(a) == LegacyEventLogId(b)
       <==> a.blockNumber == b.blockNumber && HashPrefix(a.blockHash.value) == HashPrefix(b.blockHash.value)
            && a.logIndex == b.logIndex
  {
    hide PadLeft, PadInt, Decimal, HashPrefix, AllDigits, IsHexHash;
    var p, q := PadLeft(10, Decimal(a.blockNumber)), PadLeft(10, Decimal(b.blockNumber));
    var g, h := HashPrefix(a.blockHash.value), HashPrefix(b.blockHash.value);
    var x, y := PadInt(6, a.logIndex), PadInt(6, b.logIndex);
    PadLeftIsInjective(10, a.blockNumber, b.blockNumber);
    PaddedDecimal(10, a.blockNumber);
    DigitsHaveNoDash(p);
    DigitsHaveNoDash(q);
    HashPrefixIsLiteral(a.blockHash.value);
    HashPrefixIsLiteral(b.blockHash.value);
    PadIntIsInjective(6, a.logIndex, b.logIndex);
    SplitAtDash(g, h, x, y);
    SplitAtDash(p, q, g + "-" + x, h + "-" + y);
    assert LegacyEventLogId(a) == p + "-" + (g + "-" + x);
    assert LegacyEventLogId(b) == q + "-" + (h + "-" + y);
  }

  // ---- The text of an id ----

  /** Decimal digits of this number, filled up with zeros to the width and no further. */
  predicate DigitsOf(s: string, n: nat, width: nat) {
    && AllDigits(s) && DecimalValue(s) == n && |s| >= width && (|s| > width && |s| > 1 ==> s[0] != '0')
  }

  lemma {:induction false} LeadingDigit(n: nat)
    ensures AllDigits(Decimal(n)) && (|Decimal(n)| > 1 ==> Decimal(n)[0] != '0')
  {
    DecimalRoundTrip(n);
    if n >= 10 {
      LeadingDigit(n / 10);
    }
  }

  lemma PaddedDigits(width: nat, n: nat)
    ensures DigitsOf(PadLeft(width, Decimal(n)), n, width)
  {
    PaddedDecimal(width, n);
    LeadingDigit(n);
  }

  /** Up to five digits of a hash after its `0x`, in small letters. */
  predicate HashDigits(s: string, hash: string) {
    var skip := if "0x" <= hash || "0X" <= hash then 2 else 0;
    && |s| == (if |hash| - skip < 5 then |hash| - skip else 5)
    && forall i :: 0 <= i < |s| ==>
         LetterPair(hash[skip + i], s[i]) || (hash[skip + i] == s[i] && !('A' <= s[i] <= 'Z'))
  }

  lemma PrefixDigits(hash: string)
    ensures HashDigits(HashPrefix(hash), hash)
  {
    var digits := StripHexPrefix(hash);
    var cut := if |digits| <= 5 then digits else digits[..5];
    forall i | 0 <= i < |cut|
      ensures LetterPair(cut[i], Lower(cut)[i]) || (cut[i] == Lower(cut)[i] && !('A' <= Lower(cut)[i] <= 'Z'))
    {
      LetterPairs(cut[i], Lower(cut)[i]);
    }
  }

  /** The id of a log: its height in at least ten digits, a dash, up to five digits of its block's hash, a dash, and
      its log index in at least six characters, sign included. Below 10^10 the height takes exactly ten. Without a
      block hash it is the metadata's own id. */
  lemma LegacyIdText(m: Metadata) returns (height: string, prefix: string, index: string)
    ensures m.blockHash.None? ==> LegacyEventLogId(m) == m.id
    ensures m.blockHash.Some? ==>
              && LegacyEventLogId(m) == height + "-" + prefix + "-" + index
              && DigitsOf(height, m.blockNumber, 10) && (m.blockNumber < 10_000_000_000 ==> |height| == 10)
              && HashDigits(prefix, m.blockHash.value)
              && (m.logIndex >= 0 ==> DigitsOf(index, m.logIndex, 6))
              && (m.logIndex < 0 ==> index != "" && index[0] == '-' && DigitsOf(index[1..], -m.logIndex, 5))
  {
    hide Decimal, DecimalValue;
    height, prefix, index := PadLeft(10, Decimal(m.blockNumber)), "", PadInt(6, m.logIndex);
    PaddedDigits(10, m.blockNumber);
    HeightText(m.blockNumber);
    if m.logIndex >= 0 {
      PaddedDigits(6, m.logIndex);
    } else {
      PaddedDigits(5, -m.logIndex);
      assert index[1..] == PadLeft(5, Decimal(-m.logIndex));
    }
    if m.blockHash.Some? {
      prefix := HashPrefix(m.blockHash.value);
      PrefixDigits(m.blockHash.value);
    }
  }
}
