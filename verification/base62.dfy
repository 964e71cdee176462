/**
 * The base-62 short-code encoder of `pkg/shortener`: `Encode` maps a record id
 * to its numeral over a fixed 62-character alphabet, most significant digit
 * first; `Decode` folds a code back into an int64, failing on the first
 * character outside the alphabet.
 */
module Base62 {
  import opened Wrappers
  import opened GoInt

  const Base: nat := 62

  /** The alphabet: the ten digits, then lower case, then upper case (one string, written in three parts). */
  const Alphabet: string := "0123456789" + "abcdefghijklmnopqrstuvwxyz" + "ABCDEFGHIJKLMNOPQRSTUVWXYZ"

  /** The character at alphabet position `d`. */
  function DigitChar(d: nat): char
    requires d < Base
  {
    if d < 10 then ('0' as int + d) as char
    else if d < 36 then ('a' as int + (d - 10)) as char
    else ('A' as int + (d - 36)) as char
  }

  /** The alphabet position of `c` (the lookup in the shortener's keyMap), if `c` is in the alphabet. */
  function DigitValue(c: char): Option<nat>
  {
    if '0' <= c <= '9' then Some(c as int - '0' as int)
    else if 'a' <= c <= 'z' then Some(c as int - 'a' as int + 10)
    else if 'A' <= c <= 'Z' then Some(c as int - 'A' as int + 36)
    else None
  }

  lemma AlphabetLayout()
    ensures |Alphabet| == Base
    ensures forall d :: 0 <= d < Base ==> Alphabet[d] == DigitChar(d)
  {
    var digits, lower, upper := "0123456789", "abcdefghijklmnopqrstuvwxyz", "ABCDEFGHIJKLMNOPQRSTUVWXYZ";
    assert forall d :: 0 <= d < 10 ==> digits[d] == ('0' as int + d) as char;
    assert forall d :: 0 <= d < 26 ==> lower[d] == ('a' as int + d) as char;
    assert forall d :: 0 <= d < 26 ==> upper[d] == ('A' as int + d) as char;
  }

  /** The alphabet at one position. */
  lemma AlphabetAt(d: nat)
    requires d < Base
    ensures |Alphabet| == Base && Alphabet[d] == DigitChar(d)
  {
    AlphabetLayout();
  }

  /** `DigitChar` and `DigitValue` are inverse to each other. */
  lemma DigitRoundTrip(d: nat, c: char)
    requires d < Base
    ensures DigitValue(DigitChar(d)) == Some(d)
    ensures DigitValue(c).Some? ==> DigitValue(c).value < Base && DigitChar(DigitValue(c).value) == c
  {
  }

  /** A character has a keyMap entry exactly when it occurs in the alphabet, and the entry is its position. */
  lemma AlphabetMembership(c: char)
    ensures c in Alphabet <==> DigitValue(c).Some?
    ensures DigitValue(c).Some? ==> Alphabet[DigitValue(c).value] == c
  {
    AlphabetLayout();
    DigitRoundTrip(0, c);
    if c in Alphabet {
      var i :| 0 <= i < |Alphabet| && Alphabet[i] == c;
      DigitRoundTrip(i, c);
    }
  }

  /**
   * The construction of keyMap in NewBase62Shortener: every alphabet
   * character mapped to its index. The alphabet has no repeated character,
   * so no later entry overwrites an earlier one.
   */
  method NewKeyMap() returns (keyMap: map<char, nat>)
    ensures forall c :: c in keyMap <==> c in Alphabet
    ensures forall c :: c in keyMap ==> Some(keyMap[c]) == DigitValue(c)
  {
    AlphabetAt(0);
    keyMap := map[];
    var i := 0;
    while i < |Alphabet|
      invariant 0 <= i <= |Alphabet|
      invariant forall c :: c in keyMap <==> DigitValue(c).Some? && DigitValue(c).value < i
      invariant forall c :: c in keyMap ==> Some(keyMap[c]) == DigitValue(c)
    {
      AlphabetAt(i);
      DigitRoundTrip(i, Alphabet[i]);
      var next := keyMap[Alphabet[i] := i];
      forall c
        ensures c in next <==> DigitValue(c).Some? && DigitValue(c).value < i + 1
      {
        DigitRoundTrip(i, c);
      }
      keyMap, i := next, i + 1;
    }
    forall c
      ensures c in keyMap <==> c in Alphabet
    {
      AlphabetMembership(c);
      DigitRoundTrip(0, c);
    }
  }

  /** Every character of `s` is in the alphabet. */
  predicate InAlphabet(s: string)
  {
    forall i :: 0 <= i < |s| ==> DigitValue(s[i]).Some?
  }

  /** The number a string over the alphabet denotes, read most significant digit first. */
  function Value(s: string): nat
    requires InAlphabet(s)
    decreases |s|
  {
    if |s| == 0 then 0 else Value(s[..|s| - 1]) * Base + DigitValue(s[|s| - 1]).value
  }

  function Pow(b: nat, k: nat): nat
  {
    if k == 0 then 1 else b * Pow(b, k - 1)
  }

  /** The base-62 numeral of `n` with no leading zero; empty for 0. */
  function Digits(n: nat): (s: string)
    ensures InAlphabet(s)
    ensures |s| == 0 <==> n == 0
  {
    if n == 0 then []
    else
      DigitRoundTrip(n % Base, '0');
      Digits(n / Base) + [DigitChar(n % Base)]
  }

  /**
   * `Encode` of shortener.go: "0" for id 0; otherwise the digits of the
   * remainders by 62, most significant first. A negative id skips both the
   * zero case and the division loop, giving the empty string.
   */
  function Encode(id: Int64): (code: string)
    ensures InAlphabet(code)
    ensures |code| == 0 <==> id < 0
  {
    if id == 0 then [Alphabet[0]]
    else if id < 0 then []
    else Digits(id)
  }

  /** Reversal of a sequence. */
  function Reverse<T>(s: seq<T>): (r: seq<T>)
    ensures |r| == |s|
    ensures forall k :: 0 <= k < |s| ==> r[k] == s[|s| - 1 - k]
  {
    seq(|s|, k requires 0 <= k < |s| => s[|s| - 1 - k])
  }

  /**
   * The remainder loop of `Encode`: for a positive id, the alphabet digits of
   * the remainders by 62, least significant first.
   */
  method Remainders(id: Int64) returns (encoded: seq<char>)
    requires id > 0
    ensures Reverse(encoded) == Digits(id)
  {
    encoded := [];
    var n: int := id;
    while n > 0
      invariant 0 <= n && Digits(n) + Reverse(encoded) == Digits(id)
    {
      var rem := n % Base;
      AlphabetAt(rem);
      ghost var before := encoded;
      n := n / Base;
      encoded := encoded + [Alphabet[rem]];
      assert Reverse(encoded) == [DigitChar(rem)] + Reverse(before);
    }
  }

  /** The in-place reversal of `Encode`: two indices converge, swapping as they go. */
  method ReverseInPlace(s: seq<char>) returns (r: seq<char>)
    ensures r == Reverse(s)
  {
    r := s;
    var i, j := 0, |s| - 1;
    while i < j
      invariant 0 <= i && j == |s| - 1 - i
      invariant |r| == |s|
      invariant forall k :: 0 <= k < |r| && (k < i || j < k) ==> r[k] == s[|s| - 1 - k]
      invariant forall k :: i <= k <= j ==> r[k] == s[k]
    {
      r := r[i := r[j]][j := r[i]];
      i, j := i + 1, j - 1;
    }
  }

  /**
   * `Encode` as shortener.go computes it: collect remainders least
   * significant first, then reverse in place.
   */
  method EncodeLoop(id: Int64) returns (code: string)
    ensures code == Encode(id)
  {
    if id == 0 {
      return [Alphabet[0]];
    }
    if id < 0 {
      return [];
    }
    var encoded := Remainders(id);
    code := ReverseInPlace(encoded);
  }

  datatype DecodeError = InvalidCharacter(ch: char, shortCode: string)

  /** The `(int64, error)` pair `Decode` returns. */
  datatype Decoded = Decoded(id: Int64, err: Option<DecodeError>)

  /**
   * The left-to-right fold of `Decode` over the first `n` characters:
   * `id = id*62 + keyMap[c]` in wrapping int64 arithmetic, stopping with
   * id -1 at the first character missing from keyMap.
   */
  function DecodePrefix(shortCode: string, n: nat): (r: Decoded)
    requires n <= |shortCode|
    ensures r.err.None? <==> InAlphabet(shortCode[..n])
    ensures r.err.None? ==> r.id == Wrap64(Value(shortCode[..n]))
    ensures r.err.Some? ==> r.id == -1 && exists k ::
      0 <= k < n && r.err.value == InvalidCharacter(shortCode[k], shortCode) &&
      DigitValue(shortCode[k]).None? && InAlphabet(shortCode[..k])
  {
    if n == 0 then Decoded(0, None)
    else
      var prev := DecodePrefix(shortCode, n - 1);
      assert shortCode[..n][..n - 1] == shortCode[..n - 1];
      if prev.err.Some? then prev
      else match DigitValue(shortCode[n - 1])
        case None => Decoded(-1, Some(InvalidCharacter(shortCode[n - 1], shortCode)))
        case Some(v) =>
          WrapMulAdd(Value(shortCode[..n - 1]), Base, v);
          Decoded(Wrap64(prev.id * Base + v), None)
  }

  /** `Decode` of shortener.go. */
  function Decode(shortCode: string): (r: Decoded)
    ensures r.err.None? <==> InAlphabet(shortCode)
    ensures r.err.None? ==> r.id == Wrap64(Value(shortCode))
    ensures r.err.Some? ==> r.id == -1 && exists k ::
      0 <= k < |shortCode| && r.err.value == InvalidCharacter(shortCode[k], shortCode) &&
      DigitValue(shortCode[k]).None? && InAlphabet(shortCode[..k])
  {
    assert shortCode[..|shortCode|] == shortCode;
    DecodePrefix(shortCode, |shortCode|)
  }

  /** A code `Encode` can produce for some id in 0..2^63-1. */
  predicate Canonical(s: string)
  {
    && InAlphabet(s)
    && |s| >= 1
    && (s[0] == Alphabet[0] ==> |s| == 1)
    && Value(s) <= MaxInt64
  }

  lemma {:induction false} DigitsValue(n: nat)
    ensures Value(Digits(n)) == n
    decreases n
  {
    if n > 0 {
      var s := Digits(n);
      assert s[..|s| - 1] == Digits(n / Base);
      DigitRoundTrip(n % Base, '0');
      DigitsValue(n / Base);
    }
  }

  /** A numeral of a positive number never starts with the zero digit. */
  lemma {:induction false} DigitsNoLeadingZero(n: nat)
    requires n > 0
    ensures Digits(n)[0] != Alphabet[0]
    decreases n
  {
    AlphabetLayout();
    if n / Base > 0 {
      DigitsNoLeadingZero(n / Base);
    } else {
      DigitRoundTrip(n, '0');
      assert DigitValue(Alphabet[0]) == Some(0);
    }
  }

  lemma {:induction false} DigitsLength(n: nat, k: nat)
    requires n < Pow(Base, k)
    ensures |Digits(n)| <= k
    decreases k
  {
    if n > 0 {
      assert k > 0;
      assert n / Base < Pow(Base, k - 1);
      DigitsLength(n / Base, k - 1);
    }
  }

  /** Prefixes of a numeral never denote more than the whole numeral. */
  lemma {:induction false} ValuePrefixBound(s: string, n: nat)
    requires InAlphabet(s) && n <= |s|
    ensures InAlphabet(s[..n]) && Value(s[..n]) <= Value(s)
    decreases |s| - n
  {
    if n < |s| {
      var p := s[..|s| - 1];
      assert p[..n] == s[..n];
      ValuePrefixBound(p, n);
    } else {
      assert s[..n] == s;
    }
  }

  /** A numeral without leading zero is the `Digits` of its value. */
  lemma {:induction false} CanonicalDigits(s: string)
    requires InAlphabet(s)
    requires |s| >= 1 ==> s[0] != Alphabet[0]
    ensures Digits(Value(s)) == s
    decreases |s|
  {
    AlphabetLayout();
    if |s| > 0 {
      var p := s[..|s| - 1];
      var d := DigitValue(s[|s| - 1]).value;
      DigitRoundTrip(0, s[|s| - 1]);
      DigitRoundTrip(0, s[0]);
      assert DigitValue(Alphabet[0]) == Some(0);
      ValuePrefixBound(s, 1);
      assert s[..1] == [s[0]];
      assert Value(s[..1]) == DigitValue(s[0]).value > 0;
      CanonicalDigits(p);
      assert Value(s) / Base == Value(p) && Value(s) % Base == d;
    }
  }

  /** Round trip: decoding the code of any non-negative int64 gives back the id, with no error. */
  lemma RoundTrip(id: Int64)
    requires id >= 0
    ensures Decode(Encode(id)) == Decoded(id, None)
  {
    AlphabetLayout();
    if id == 0 {
      assert Value([Alphabet[0]]) == Value([]) * Base + 0;
    } else {
      DigitsValue(id);
    }
  }

  /** Distinct non-negative ids have distinct codes. */
  lemma EncodeInjective(a: Int64, b: Int64)
    requires a >= 0 && b >= 0
    ensures Encode(a) == Encode(b) <==> a == b
  {
    if Encode(a) == Encode(b) {
      RoundTrip(a);
      RoundTrip(b);
    }
  }

  /** Negative ids are not distinguished: they all encode to the empty string. */
  lemma EncodeNegativeCollapse(a: Int64, b: Int64)
    requires a < 0 && b < 0
    ensures Encode(a) == Encode(b) == ""
  {
  }

  /** Codes of non-negative ids are exactly the canonical codes: the first character is '0' only for id 0. */
  lemma EncodeIsCanonical(id: Int64)
    requires id >= 0
    ensures Canonical(Encode(id))
    ensures id > 0 ==> Encode(id)[0] != Alphabet[0]
  {
    RoundTrip(id);
    if id > 0 {
      DigitsValue(id);
      DigitsNoLeadingZero(id);
    }
  }

  /** Every canonical code decodes without error and re-encodes to itself. */
  lemma CanonicalRoundTrip(s: string)
    requires Canonical(s)
    ensures Decode(s).err.None?
    ensures Encode(Decode(s).id) == s
  {
    AlphabetLayout();
    if s[0] == Alphabet[0] {
      assert s == [Alphabet[0]];
      assert Value(s) == Value([]) * Base + 0;
    } else {
      CanonicalDigits(s);
      assert Value(s) != 0;
    }
  }

  /** Every non-negative int64 encodes to 1 to 11 characters. */
  lemma EncodeLength(id: Int64)
    requires id >= 0
    ensures 1 <= |Encode(id)| <= 11
  {
    if id > 0 {
      assert Pow(Base, 11) == 52036560683837093888 by {
        assert Pow(Base, 2) == 3844;
        assert Pow(Base, 4) == 3844 * Pow(Base, 2) == 14776336;
        assert Pow(Base, 6) == 3844 * Pow(Base, 4) == 56800235584;
        assert Pow(Base, 8) == 3844 * Pow(Base, 6) == 218340105584896;
        assert Pow(Base, 10) == 3844 * Pow(Base, 8) == 839299365868340224;
      }
      DigitsLength(id, 11);
    }
  }

  /** Decoding the empty string is the vacuous fold: 0 with no error. */
  lemma DecodeEmpty()
    ensures Decode("") == Decoded(0, None)
  {
  }

  /** The encoder's test vectors. */
  lemma EncodeExamples()
    ensures Encode(0) == "0"
    ensures Encode(1) == "1"
    ensures Encode(61) == "Z"
    ensures Encode(62) == "10"
    ensures Encode(12345) == "3d7"
  {
    AlphabetAt(0);
    assert Digits(3) == "3";
    assert Digits(199) == "3d";
  }

  /** The leading seven digits of 2^63-1. */
  lemma MaxInt64Head()
    ensures Digits(624198856662) == "aZl8N0y"
  {
    assert Digits(10) == "a";
    assert Digits(681) == "aZ";
    assert Digits(42243) == "aZl";
    assert Digits(2619074) == "aZl8";
    assert Digits(162382637) == "aZl8N";
    assert Digits(10067723494) == "aZl8N0";
  }

  /** The test vector for the largest id: 2^63-1 encodes to eleven characters. */
  lemma EncodeMaxInt64()
    ensures Encode(MaxInt64) == "aZl8N0y58M7"
  {
    MaxInt64Head();
    assert Digits(38700329113049) == "aZl8N0y5";
    assert Digits(2399420405009046) == "aZl8N0y58";
    assert Digits(148764065110560900) == "aZl8N0y58M";
  }

  /**
   * Decode does not detect int64 overflow: the code one past the code of
   * 2^63-1 decodes, with no error, to -2^63.
   */
  lemma DecodeOverflowWraps()
    ensures Decode("aZl8N0y58M8") == Decoded(MinInt64, None)
  {
    EncodeMaxInt64();
    DigitsValue(MaxInt64);
    var p, top, over := "aZl8N0y58M", "aZl8N0y58M7", "aZl8N0y58M8";
    assert top == p + "7" && over == p + "8";
    assert InAlphabet(top) && InAlphabet(over);
    assert top[..|p|] == p && over[..|p|] == p;
    assert Value(over) == Value(top) + 1 == MaxInt64 + 1;
    assert Wrap64(MaxInt64 + 1) == MinInt64;
  }
}
