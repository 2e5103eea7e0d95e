/**
 * The teacher token: a 20-character bearer id made of a 10-character
 * timestamp part, a 5-character random part and a 5-character checksum of
 * the first fifteen characters (functions/utils/validations.js).
 */
module Validations {
  import opened Common

  /** A JavaScript number as the checksum arithmetic produces it: a finite
      sum of digit values, or NaN once a non-digit character was parsed. */
  datatype Num = Finite(n: nat) | NaN

  /** `parseInt(c, 10)` for a single character. */
  function ParseDigit(c: char): (r: Num)
    ensures r.Finite? <==> IsDigit(c)
    ensures r.Finite? ==> r.n == DigitValue(c)
  {
    if IsDigit(c) then Finite(DigitValue(c)) else NaN
  }

  /** JavaScript `+` on two numbers: NaN is absorbing. */
  function Add(a: Num, b: Num): Num
  {
    if a.Finite? && b.Finite? then Finite(a.n + b.n) else NaN
  }

  /** NaN absorbs in `+`; two finite numbers add as integers. */
  lemma AddNaN(a: Num, b: Num)
    ensures a.NaN? || b.NaN? ==> Add(a, b).NaN?
    ensures a.Finite? && b.Finite? ==> Add(a, b) == Finite(a.n + b.n)
  {
  }

  /** `s.split("").reduce((acc, char) => acc + parseInt(char, 10), 0)`:
      a left fold, so the sum of a string is the sum of all but its last
      character plus the last one. */
  function DigitSum(s: string): (r: Num)
    ensures r.Finite? <==> AllDigits(s)
    ensures r.Finite? ==> r.n <= 9 * |s|
  {
    if s == [] then Finite(0)
    else
      var init := s[..|s| - 1];
      assert forall i :: 0 <= i < |init| ==> init[i] == s[i];
      Add(DigitSum(init), ParseDigit(s[|s| - 1]))
  }

  /** `calculateChecksum(timestamp, random)`: the digit sum of the two parts,
      reduced modulo 100000, printed and left-padded with zeros to five
      characters. A NaN sum prints as "NaN" and pads to "00NaN". */
  function CalculateChecksum(timestamp: string, random: string): (checksum: string)
    ensures |checksum| == 5
  {
    match DigitSum(timestamp + random)
    case NaN => PadStartZeros("NaN", 5)
    case Finite(sum) =>
      assert Pow10(5) == 100000;
      NatToStringLength(sum % 100000, 5);
      PadStartZeros(NatToString(sum % 100000), 5)
  }

  /** `verifyTeacherId(teacherId)`: the length must be exactly 20 and the
      last five characters must equal the checksum of the first fifteen. */
  function VerifyTeacherId(teacherId: string): (valid: bool)
    ensures valid ==> |teacherId| == 20
  {
    if |teacherId| != 20 then false
    else teacherId[15..] == CalculateChecksum(teacherId[..10], teacherId[10..15])
  }

  /** The token a client would mint: the repository has no minting code, so
      this is the construction `verifyTeacherId` accepts. */
  function Mint(timestamp: string, random: string): string
  {
    timestamp + random + CalculateChecksum(timestamp, random)
  }

  // ---------------------------------------------------------------------
  // Round trip
  // ---------------------------------------------------------------------

  /** Every minted token verifies, whatever characters its two parts hold. */
  lemma MintVerifies(timestamp: string, random: string)
    requires |timestamp| == 10 && |random| == 5
    ensures |Mint(timestamp, random)| == 20
    ensures VerifyTeacherId(Mint(timestamp, random))
  {
    var id := Mint(timestamp, random);
    assert id[..10] == timestamp;
    assert id[10..15] == random;
    assert id[15..] == CalculateChecksum(timestamp, random);
  }

  /** Conversely, a token verifies exactly when it is the mint of its own
      first ten and next five characters. */
  lemma VerifiedIffMinted(teacherId: string)
    ensures VerifyTeacherId(teacherId) <==>
      |teacherId| == 20 && teacherId == Mint(teacherId[..10], teacherId[10..15])
  {
    if |teacherId| == 20 {
      assert teacherId == teacherId[..10] + teacherId[10..15] + teacherId[15..];
      var m := Mint(teacherId[..10], teacherId[10..15]);
      assert teacherId == m ==> teacherId[15..] == m[15..];
      assert m[15..] == CalculateChecksum(teacherId[..10], teacherId[10..15]);
    }
  }

  // ---------------------------------------------------------------------
  // The digit path: sums are small
  // ---------------------------------------------------------------------

  /** For at most fifteen digits the sum is at most 135, so the modulo never
      changes it and the checksum is "00" followed by three digits whose
      value is the sum (between "00000" and "00135"). */
  lemma DigitChecksumRange(timestamp: string, random: string)
    requires |timestamp + random| <= 15 && AllDigits(timestamp + random)
    ensures DigitSum(timestamp + random).Finite?
    ensures DigitSum(timestamp + random).n <= 135
    ensures var c := CalculateChecksum(timestamp, random);
      c[0] == '0' && c[1] == '0' && AllDigits(c) &&
      DecimalValue(c) == DigitSum(timestamp + random).n
  {
    var sum := DigitSum(timestamp + random).n;
    assert sum % 100000 == sum;
    var digits := NatToString(sum);
    assert Pow10(3) == 1000;
    NatToStringLength(sum, 3);
    LeadingZerosValue(5 - |digits|, digits);
    assert CalculateChecksum(timestamp, random) == Zeros(5 - |digits|) + digits;
  }

  /** The checksum of an all-digit prefix determines its digit sum. */
  lemma DigitChecksumInjective(p: string, q: string)
    requires |p| <= 15 && |q| <= 15 && AllDigits(p) && AllDigits(q)
    requires CalculateChecksum(p, "") == CalculateChecksum(q, "")
    ensures DigitSum(p) == DigitSum(q)
  {
    assert p + "" == p && q + "" == q;
    DigitChecksumRange(p, "");
    DigitChecksumRange(q, "");
  }

  // ---------------------------------------------------------------------
  // The sum ignores the order of characters
  // ---------------------------------------------------------------------

  lemma {:induction false} DigitSumConcat(u: string, v: string)
    ensures DigitSum(u + v) == Add(DigitSum(u), DigitSum(v))
  {
    if v == [] {
      assert u + v == u;
    } else {
      var v' := v[..|v| - 1];
      DigitSumConcat(u, v');
      assert (u + v)[..|u + v| - 1] == u + v';
      assert (u + v)[|u + v| - 1] == v[|v| - 1];
    }
  }

  /** The digit sum of a string splits around any one position. */
  lemma DigitSumAt(s: string, j: nat)
    requires j < |s|
    ensures DigitSum(s) == Add(ParseDigit(s[j]), DigitSum(s[..j] + s[j + 1..]))
  {
    var l, x, r := s[..j], s[j], s[j + 1..];
    SplitAround(s, j);
    DigitSumConcat(l, [x] + r);
    DigitSumConcat([x], r);
    DigitSumConcat(l, r);
    assert DigitSum([x]) == ParseDigit(x) by {
      assert [x][..0] == [];
    }
    AddSwap(DigitSum(l), ParseDigit(x), DigitSum(r));
  }

  /** A string is its part before `j`, its character at `j` and the rest. */
  lemma SplitAround(s: string, j: nat)
    requires j < |s|
    ensures s == s[..j] + ([s[j]] + s[j + 1..])
  {
    assert s[j..] == [s[j]] + s[j + 1..];
    assert s == s[..j] + s[j..];
  }

  lemma AddSwap(a: Num, b: Num, c: Num)
    ensures Add(a, Add(b, c)) == Add(b, Add(a, c))
  {
  }

  lemma AddComm(a: Num, b: Num)
    ensures Add(a, b) == Add(b, a)
  {
  }

  /** Taking out the character at `j` takes one copy of it out of the
      multiset. */
  lemma MultisetRemoveAt(s: string, j: nat)
    requires j < |s|
    ensures multiset(s[..j] + s[j + 1..]) == multiset(s) - multiset{s[j]}
  {
    SplitAround(s, j);
    assert multiset(s) == multiset(s[..j]) + (multiset{s[j]} + multiset(s[j + 1..]));
  }

  /** The digit sum of a non-empty string is that of all but its last
      character plus the last one. */
  lemma DigitSumLast(a: string)
    requires a != []
    ensures DigitSum(a) == Add(DigitSum(a[..|a| - 1]), ParseDigit(a[|a| - 1]))
  {
  }

  /** Two strings holding the same characters have the same digit sum. */
  lemma {:induction false} DigitSumPermutation(a: string, b: string)
    requires multiset(a) == multiset(b)
    ensures DigitSum(a) == DigitSum(b)
    decreases |a|
  {
    if a == [] {
      assert |b| == |multiset(b)| == 0;
    } else {
      var n := |a| - 1;
      var x := a[n];
      assert x in multiset(b);
      var j :| 0 <= j < |b| && b[j] == x;
      var a', b' := a[..n], b[..j] + b[j + 1..];
      MultisetRemoveAt(b, j);
      MultisetRemoveAt(a, n);
      assert a[..n] + a[n + 1..] == a';
      DigitSumPermutation(a', b');
      DigitSumLast(a);
      DigitSumAt(b, j);
      AddComm(DigitSum(a'), ParseDigit(x));
    }
  }

  /** Permuting the first fifteen characters of a valid token keeps it valid. */
  lemma PermutedPrefixStaysValid(teacherId: string, other: string)
    requires VerifyTeacherId(teacherId)
    requires |other| == 20 && other[15..] == teacherId[15..]
    requires multiset(other[..15]) == multiset(teacherId[..15])
    ensures VerifyTeacherId(other)
  {
    assert teacherId[..10] + teacherId[10..15] == teacherId[..15];
    assert other[..10] + other[10..15] == other[..15];
    DigitSumPermutation(other[..15], teacherId[..15]);
  }

  // ---------------------------------------------------------------------
  // Single-character mutations
  // ---------------------------------------------------------------------

  /** Two digit strings that differ at one position only have different
      digit sums. */
  lemma OneDigitApart(p: string, q: string, i: nat)
    requires i < |p| && i < |q| && AllDigits(p) && AllDigits(q) && p[i] != q[i]
    requires p[..i] + p[i + 1..] == q[..i] + q[i + 1..]
    ensures DigitSum(p) != DigitSum(q)
  {
    var rest := DigitSum(p[..i] + p[i + 1..]);
    DigitSumAt(p, i);
    DigitSumAt(q, i);
    assert DigitSum(p) == Add(ParseDigit(p[i]), rest);
    assert DigitSum(q) == Add(ParseDigit(q[i]), rest);
    assert rest.Finite? by {
      assert DigitSum(p).Finite?;
    }
    assert ParseDigit(p[i]).n != ParseDigit(q[i]).n;
  }

  /** Replacing one digit of an all-digit prefix by a different digit makes a
      valid token invalid: the digit sum moves, and small sums have distinct
      checksums. */
  lemma DigitChangeInvalidates(teacherId: string, i: nat, d: char)
    requires VerifyTeacherId(teacherId) && AllDigits(teacherId[..15])
    requires i < 15 && IsDigit(d) && d != teacherId[i]
    ensures !VerifyTeacherId(teacherId[i := d])
  {
    var other := teacherId[i := d];
    var p, q := teacherId[..15], other[..15];
    assert q == p[i := d];
    assert q[..i] + q[i + 1..] == p[..i] + p[i + 1..];
    OneDigitApart(p, q, i);
    if VerifyTeacherId(other) {
      assert teacherId[..10] + teacherId[10..15] == p;
      assert other[..10] + other[10..15] == q;
      assert other[15..] == teacherId[15..];
      assert p + "" == p && q + "" == q;
      DigitChecksumInjective(p, q);
    }
  }

  /** Changing any character of the checksum of a valid token makes it invalid. */
  lemma ChecksumChangeInvalidates(teacherId: string, i: nat, c: char)
    requires VerifyTeacherId(teacherId)
    requires 15 <= i < 20 && c != teacherId[i]
    ensures !VerifyTeacherId(teacherId[i := c])
  {
    var other := teacherId[i := c];
    assert other[..10] == teacherId[..10] && other[10..15] == teacherId[10..15];
    assert other[15..][i - 15] != teacherId[15..][i - 15];
  }

  // ---------------------------------------------------------------------
  // The non-digit path
  // ---------------------------------------------------------------------

  /** Any non-digit among the summed characters makes the sum NaN, whose
      padded text is the literal "00NaN". */
  lemma NonDigitChecksum(timestamp: string, random: string)
    requires !AllDigits(timestamp + random)
    ensures CalculateChecksum(timestamp, random) == "00NaN"
  {
    assert Zeros(2) == "00";
  }

  /** A token with a non-digit among its first fifteen characters verifies
      exactly when it ends in "00NaN". */
  lemma NonDigitTokenVerifiesIff(teacherId: string)
    requires |teacherId| == 20 && !AllDigits(teacherId[..15])
    ensures VerifyTeacherId(teacherId) <==> teacherId[15..] == "00NaN"
  {
    assert teacherId[..10] + teacherId[10..15] == teacherId[..15];
    NonDigitChecksum(teacherId[..10], teacherId[10..15]);
  }

  /** An all-digit prefix never yields the "00NaN" checksum. */
  lemma DigitPrefixNeverNaN(teacherId: string)
    requires |teacherId| == 20 && AllDigits(teacherId[..15])
    ensures CalculateChecksum(teacherId[..10], teacherId[10..15]) != "00NaN"
  {
    assert teacherId[..10] + teacherId[10..15] == teacherId[..15];
    DigitChecksumRange(teacherId[..10], teacherId[10..15]);
    assert !IsDigit("00NaN"[2]);
  }
}
