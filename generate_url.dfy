/**
 * Short-code generation: a number is written in base 62, the digits are
 * signed with a keyed hash, and a window of the hex digest is the code.
 */
module GenerateUrl {
  import opened Wrappers

  /** The base-62 digits in digit order: 0-9, then a-z, then A-Z (ALPHABET is the three ranges in order). */
  const DIGITS: string := "0123456789"
  const LOWER: string := "abcdefghijklmnopqrstuvwxyz"
  const UPPER: string := "ABCDEFGHIJKLMNOPQRSTUVWXYZ"
  const ALPHABET: string := DIGITS + LOWER + UPPER
  /** ALPHABET.length (AlphabetLength). */
  const BASE: nat := 62

  /** The key used when the environment supplies none (or an empty one). */
  const DEFAULT_SECRET_KEY: string := "obviously-secret-key-exists"

  /** An HMAC-SHA256 digest printed in hex has this many characters. */
  const DIGEST_HEX_LENGTH: nat := 64

  /** The keyed hash: (message, key) to its digest printed as hex. Not modelled further. */
  type Hmac = (string, string) -> string

  // ---------------------------------------------------------------------------
  // Digits of the alphabet

  /** The digit a character stands for, read off the three ranges ALPHABET is made of; -1 outside it. */
  function DigitValue(c: char): int {
    if '0' <= c <= '9' then c as int - '0' as int
    else if 'a' <= c <= 'z' then c as int - 'a' as int + 10
    else if 'A' <= c <= 'Z' then c as int - 'A' as int + 36
    else -1
  }

  /** The character for digit d, by the same three ranges. */
  function DigitChar(d: int): char
    requires 0 <= d < 62
  {
    if d < 10 then ('0' as int + d) as char
    else if d < 36 then ('a' as int + d - 10) as char
    else ('A' as int + d - 36) as char
  }

  lemma AlphabetLength()
    ensures |ALPHABET| == BASE
  {
  }

  /** ALPHABET is the three ranges in order, so the character at position d has digit value d. */
  lemma AlphabetAt(d: int)
    requires 0 <= d < 62
    ensures ALPHABET[d] == DigitChar(d) && DigitValue(ALPHABET[d]) == d
  {
    if d < 10 {
      assert ALPHABET[d] == DIGITS[d];
    } else if d < 36 {
      assert ALPHABET[d] == LOWER[d - 10];
    } else {
      assert ALPHABET[d] == UPPER[d - 36];
    }
  }

  /** A character with a digit value sits at that position of ALPHABET. */
  lemma AlphabetAtValue(c: char)
    requires 0 <= DigitValue(c)
    ensures DigitValue(c) < BASE && ALPHABET[DigitValue(c)] == c
  {
    AlphabetAt(DigitValue(c));
  }

  /** A character is in ALPHABET exactly when it has a digit value. */
  lemma AlphabetMember(c: char)
    ensures c in ALPHABET <==> 0 <= DigitValue(c)
    ensures c in ALPHABET ==> DigitValue(c) < BASE && ALPHABET[DigitValue(c)] == c
  {
    if 0 <= DigitValue(c) {
      AlphabetAtValue(c);
    }
    if c in ALPHABET {
      var d :| 0 <= d < |ALPHABET| && ALPHABET[d] == c;
      AlphabetAt(d);
    }
  }

  // ---------------------------------------------------------------------------
  // toBase62

  /** The base-62 digits of n, most significant first; the empty string for 0. */
  function Base62Digits(n: nat): string
    decreases n
  {
    if n == 0 then "" else Base62Digits(n / BASE) + [ALPHABET[n % BASE]]
  }

  /** What toBase62 returns: the digits of num, or ALPHABET[0] when there are none (num <= 0). */
  function Base62(num: int): string
  {
    if num <= 0 then [ALPHABET[0]] else Base62Digits(num)
  }

  /** Reading a digit string back, most significant digit first. */
  function Base62Value(s: string): int
  {
    if s == [] then 0 else Base62Value(s[..|s| - 1]) * BASE + DigitValue(s[|s| - 1])
  }

  function Pow(b: nat, e: nat): nat
  {
    if e == 0 then 1 else b * Pow(b, e - 1)
  }

  /** The canonical digit strings: "0", or a non-empty string of base-62 digits (AlphabetMember) without a leading '0'. */
  predicate IsCanonical(s: string)
  {
    s == "0" || (s != [] && s[0] != '0' && forall i :: 0 <= i < |s| ==> 0 <= DigitValue(s[i]))
  }

  /** toBase62: repeated division by BASE, prepending the remainder's digit each time. */
  method ToBase62(num: int) returns (s: string)
    ensures s == Base62(num)
  {
    var bigNum := num;
    var result := "";
    while bigNum > 0
      invariant num <= 0 ==> bigNum == num && result == ""
      invariant num > 0 ==> 0 <= bigNum && Base62Digits(num) == Base62Digits(bigNum) + result
      decreases bigNum
    {
      assert Base62Digits(bigNum) == Base62Digits(bigNum / BASE) + [ALPHABET[bigNum % BASE]];
      result := [ALPHABET[bigNum % BASE]] + result;
      bigNum := bigNum / BASE;
    }
    if result == "" {
      return [ALPHABET[0]];
    }
    return result;
  }

  /** Every character toBase62 emits is in ALPHABET, and the string is never empty. */
  lemma {:induction false} Base62InAlphabet(num: int)
    ensures Base62(num) != ""
    ensures forall i :: 0 <= i < |Base62(num)| ==> Base62(num)[i] in ALPHABET
  {
    if num > 0 {
      DigitsInAlphabet(num);
    }
  }

  lemma {:induction false} DigitsInAlphabet(n: nat)
    ensures forall i :: 0 <= i < |Base62Digits(n)| ==> Base62Digits(n)[i] in ALPHABET
  {
    if n > 0 {
      DigitsInAlphabet(n / BASE);
    }
  }

  /** Zero and every negative number come out as the single digit "0". */
  lemma Base62NonPositive(num: int)
    requires num <= 0
    ensures Base62(num) == "0"
  {
    AlphabetAt(0);
  }

  /** "0" is ALPHABET[0], and it reads back as 0. */
  lemma ZeroDigitValue()
    ensures Base62(0) == "0" && Base62Value("0") == 0
  {
    AlphabetAt(0);
    assert "0"[..0] == [];
  }

  /** Reading the digits back gives the number: toBase62 loses nothing on naturals. */
  lemma {:induction false} Base62RoundTrip(n: nat)
    ensures Base62Value(Base62(n)) == n
  {
    if n == 0 {
      ZeroDigitValue();
    } else {
      DigitsRoundTrip(n);
    }
  }

  lemma {:induction false} DigitsRoundTrip(n: nat)
    ensures Base62Value(Base62Digits(n)) == n
  {
    if n > 0 {
      AlphabetLength();
      AlphabetAt(n % BASE);
      var t := Base62Digits(n / BASE);
      var s := t + [ALPHABET[n % BASE]];
      assert s[..|s| - 1] == t;
      DigitsRoundTrip(n / BASE);
    }
  }

  /** Distinct naturals get distinct digit strings. */
  lemma Base62Injective(a: nat, b: nat)
    ensures Base62(a) == Base62(b) ==> a == b
  {
    Base62RoundTrip(a);
    Base62RoundTrip(b);
  }

  /** For n > 0 there is no leading zero, and the length is the number of base-62 places of n. */
  lemma {:induction false} Base62Canonical(n: int)
    requires n > 0
    ensures Base62(n)[0] != '0'
    ensures Pow(BASE, |Base62(n)| - 1) <= n < Pow(BASE, |Base62(n)|)
  {
    DigitsCanonical(n);
  }

  lemma {:induction false} DigitsCanonical(n: nat)
    requires n > 0
    ensures Base62Digits(n) != "" && Base62Digits(n)[0] != '0'
    ensures Pow(BASE, |Base62Digits(n)| - 1) <= n < Pow(BASE, |Base62Digits(n)|)
  {
    var q, r := n / BASE, n % BASE;
    var s := Base62Digits(n);
    assert s == Base62Digits(q) + [ALPHABET[r]];
    if q == 0 {
      AlphabetAt(n);
      AlphabetAt(0);
      assert s == [ALPHABET[n]];
    } else {
      DigitsCanonical(q);
      var k := |Base62Digits(q)|;
      assert |s| == k + 1 && s[0] == Base62Digits(q)[0];
      PlacesStep(n, Pow(BASE, k - 1));
    }
  }

  /** One more base-62 place: if q = n div 62 has k places, n has k + 1. */
  lemma PlacesStep(n: nat, p: nat)
    requires p <= n / BASE < BASE * p
    ensures BASE * p <= n < BASE * (BASE * p)
  {
  }

  /** Every canonical digit string is what toBase62 returns for its value: the two are inverse. */
  lemma Base62OfValue(s: string)
    requires IsCanonical(s)
    ensures Base62Value(s) >= 0 && Base62(Base62Value(s)) == s
  {
    if s == "0" {
      ZeroDigitValue();
    } else {
      DigitsOfValue(s);
    }
  }

  lemma {:induction false} DigitsOfValue(s: string)
    requires s != [] && s[0] != '0'
    requires forall i :: 0 <= i < |s| ==> 0 <= DigitValue(s[i])
    ensures Base62Value(s) > 0
    ensures Base62Digits(Base62Value(s)) == s
  {
    var t, c := s[..|s| - 1], s[|s| - 1];
    assert s == t + [c];
    if t != [] {
      assert t[0] == s[0];
      DigitsOfValue(t);
    }
    DigitsStep(t, c);
  }

  /** One more digit c after the canonical digits t (or c alone, if it is not '0'). */
  lemma DigitsStep(t: string, c: char)
    requires 0 <= DigitValue(c)
    requires t == [] ==> c != '0'
    requires t != [] ==> Base62Value(t) > 0 && Base62Digits(Base62Value(t)) == t
    ensures Base62Value(t + [c]) > 0
    ensures Base62Digits(Base62Value(t + [c])) == t + [c]
  {
    var v, d := Base62Value(t), DigitValue(c);
    assert Base62Value(t + [c]) == v * BASE + d by {
      ValueAppend(t, c);
    }
    assert d < BASE && ALPHABET[d] == c by {
      AlphabetAtValue(c);
    }
    assert Base62Digits(v) == t && v * BASE + d > 0 by {
      if t == [] {
        assert v == 0;
      }
    }
    DigitsAppend(v, d);
  }

  /** Reading t + [c] shifts the value of t one place and adds c's digit. */
  lemma ValueAppend(t: string, c: char)
    ensures Base62Value(t + [c]) == Base62Value(t) * BASE + DigitValue(c)
  {
    var u := t + [c];
    assert u[..|u| - 1] == t && u[|u| - 1] == c;
  }

  /** Appending digit d to the digits of v gives the digits of v * BASE + d (unless both are 0). */
  lemma DigitsAppend(v: nat, d: int)
    requires 0 <= d < BASE && v * BASE + d > 0
    ensures Base62Digits(v * BASE + d) == Base62Digits(v) + [ALPHABET[d]]
  {
    var n := v * BASE + d;
    assert n / BASE == v && n % BASE == d;
  }

  // ---------------------------------------------------------------------------
  // generateBase62Hash

  /** HMAC_SECRET_KEY || default: an absent or empty key falls back to the default. */
  function SecretKey(env: Option<string>): (key: string)
    ensures key != ""
    ensures env.Some? && env.value != "" ==> key == env.value
    ensures env.None? || env.value == "" ==> key == DEFAULT_SECRET_KEY
  {
    if env.Some? && env.value != "" then env.value else DEFAULT_SECRET_KEY
  }

  /** Math.trunc(a / b): division rounding toward zero, as ECMAScript's ToIntegerOrInfinity does. */
  function TruncDiv(a: int, b: int): int
    requires b != 0
  {
    var q := (if a < 0 then -a else a) / (if b < 0 then -b else b);
    if (a < 0) == (b < 0) then q else -q
  }

  /** String.prototype.substring on integer arguments: both clamped to [0, |s|], swapped if out of order. */
  function JsSubstring(s: string, start: int, end: int): (r: string)
    ensures |r| <= |s|
    ensures forall i :: 0 <= i < |r| ==> r[i] in s
  {
    var a := if start < 0 then 0 else if start > |s| then |s| else start;
    var b := if end < 0 then 0 else if end > |s| then |s| else end;
    if a <= b then s[a..b] else s[b..a]
  }

  /**
   * generateBase62Hash: the digest of toBase62(num) under the key, cut at
   * [BASE / length - length, BASE / length) with JavaScript's real division
   * (BASE / length - length == (BASE - length * length) / length); for
   * length == 0 both ends are Infinity, which substring clamps to the end.
   */
  function GenerateBase62Hash(hmac: Hmac, key: string, num: int, length: int): (code: string)
    ensures |code| <= |hmac(Base62(num), key)|
    ensures forall i :: 0 <= i < |code| ==> code[i] in hmac(Base62(num), key)
  {
    var digest := hmac(Base62(num), key);
    if length == 0 then JsSubstring(digest, |digest|, |digest|)
    else JsSubstring(digest, TruncDiv(BASE - length * length, length), TruncDiv(BASE, length))
  }

  function Min(a: int, b: int): int { if a <= b then a else b }
  function Max(a: int, b: int): int { if a <= b then b else a }

  /** For a positive length and a full digest, the code is the window [max(0, 62 div L - L), 62 div L). */
  lemma GeneratedCodeWindow(hmac: Hmac, key: string, num: int, length: int)
    requires length >= 1
    requires |hmac(Base62(num), key)| == DIGEST_HEX_LENGTH
    ensures var digest := hmac(Base62(num), key);
      GenerateBase62Hash(hmac, key, num, length)
        == digest[Max(0, BASE / length - length) .. BASE / length]
    ensures |GenerateBase62Hash(hmac, key, num, length)| == Min(length, BASE / length)
  {
    var digest := hmac(Base62(num), key);
    var q := BASE / length;
    assert TruncDiv(BASE, length) == q <= BASE;
    if length <= 7 {
      ShortWindow(length);
      assert GenerateBase62Hash(hmac, key, num, length) == JsSubstring(digest, q - length, q);
    } else {
      LongWindow(length);
      assert GenerateBase62Hash(hmac, key, num, length) == digest[0..q];
    }
  }

  /** Up to length 7 the start BASE / length - length is not negative and the window holds length characters. */
  lemma ShortWindow(length: int)
    requires 1 <= length <= 7
    ensures TruncDiv(BASE - length * length, length) == BASE / length - length >= 0
  {
    // one case per length: the windows are [61, 62), [29, 31), [17, 20), [11, 15), [7, 12), [4, 10), [1, 8)
    match length
    case 1 => case 2 => case 3 => case 4 => case 5 => case 6 => case 7 =>
  }

  /** From length 8 on the start is negative (clamped to 0) and BASE / length < length. */
  lemma LongWindow(length: int)
    requires length >= 8
    ensures TruncDiv(BASE - length * length, length) <= 0 && BASE / length < length
  {
    var q := BASE / length;
    MulAtLeast(length, 8, length);
    MulAtLeast(length, 8, q);
    assert length * q <= BASE;
  }

  lemma MulAtLeast(a: int, b: int, c: nat)
    requires a >= b
    ensures a * c >= b * c
  {
  }

  /** At the length the controller uses (5) the code is the digest's characters 7 to 11. */
  lemma GeneratedCodeAtFive(hmac: Hmac, key: string, num: int)
    requires |hmac(Base62(num), key)| == DIGEST_HEX_LENGTH
    ensures GenerateBase62Hash(hmac, key, num, 5) == hmac(Base62(num), key)[7..12]
    ensures |GenerateBase62Hash(hmac, key, num, 5)| == 5
  {
    GeneratedCodeWindow(hmac, key, num, 5);
  }

  const HEX_DIGITS: string := "0123456789abcdef"

  predicate IsLowerHex(s: string)
  {
    forall i :: 0 <= i < |s| ==> s[i] in HEX_DIGITS
  }

  /** A lower-case hex digest yields a code over 0-9a-f, all of whose characters are base-62 digits. */
  lemma GeneratedCodeIsHex(hmac: Hmac, key: string, num: int, length: int)
    requires IsLowerHex(hmac(Base62(num), key))
    ensures var code := GenerateBase62Hash(hmac, key, num, length);
      IsLowerHex(code) && forall i :: 0 <= i < |code| ==> code[i] in ALPHABET
  {
    var code := GenerateBase62Hash(hmac, key, num, length);
    var digest := hmac(Base62(num), key);
    forall i | 0 <= i < |code| ensures code[i] in HEX_DIGITS && code[i] in ALPHABET {
      var j :| 0 <= j < |digest| && digest[j] == code[i];
      assert code[i] in HEX_DIGITS;
      AlphabetMember(code[i]);
    }
  }
}
