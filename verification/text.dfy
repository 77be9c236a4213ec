/** The handful of Python string operations the OBD code relies on, stated
    over `string` (a `seq<char>`): whitespace removal (`"".join(s.split())`),
    `s.split(sep)[0]`, clamped slicing `s[lo:hi]`, `str()` of a natural
    number, and `hex_to_int`.

    `hex_to_int` lives in the `carberry_sensors` module, which is not part of
    this model; it is taken here to be the usual base-16 reading of a
    non-empty string of hexadecimal digits, failing (`None`) on anything else. */
module Text {
  import opened Outcomes

  /** The characters Python 2's `str.split()` treats as whitespace. */
  predicate IsSpace(c: char) {
    c == ' ' || c == '\t' || c == '\n' || c == '\r' || c == '\U{0B}' || c == '\U{0C}'
  }

  predicate NoSpaces(s: string) {
    forall i :: 0 <= i < |s| ==> !IsSpace(s[i])
  }

  /** `"".join(s.split())`: every whitespace character removed. */
  function RemoveSpaces(s: string): (r: string)
    ensures NoSpaces(r)
    ensures |r| <= |s|
  {
    if s == [] then []
    else if IsSpace(s[0]) then RemoveSpaces(s[1..])
    else [s[0]] + RemoveSpaces(s[1..])
  }

  /** Removing whitespace commutes with concatenation. */
  lemma {:induction false} RemoveSpacesAppend(a: string, b: string)
    ensures RemoveSpaces(a + b) == RemoveSpaces(a) + RemoveSpaces(b)
  {
    if a == [] {
      assert a + b == b;
    } else {
      assert (a + b)[1..] == a[1..] + b;
      RemoveSpacesAppend(a[1..], b);
    }
  }

  /** One character at a time: whitespace goes, anything else stays. With
      `RemoveSpacesAppend` this pins the result down on every text. */
  lemma RemoveSpacesOne(c: char)
    ensures IsSpace(c) ==> RemoveSpaces([c]) == []
    ensures !IsSpace(c) ==> RemoveSpaces([c]) == [c]
  {
    assert [c][1..] == [];
  }

  /** Text without whitespace is left alone. */
  lemma {:induction false} RemoveSpacesKeepsSpaceless(s: string)
    requires NoSpaces(s)
    ensures RemoveSpaces(s) == s
  {
    if s != [] {
      RemoveSpacesKeepsSpaceless(s[1..]);
    }
  }

  /** `s.split(sep)[0]`: the text before the first `sep`, or all of `s`. */
  function BeforeFirst(s: string, sep: char): (r: string)
    ensures |r| <= |s| && r == s[..|r|]
    ensures sep !in r
    ensures |r| < |s| ==> s[|r|] == sep
  {
    if s == [] then []
    else if s[0] == sep then []
    else [s[0]] + BeforeFirst(s[1..], sep)
  }

  /** Without a separator, `split` leaves the whole text as the first piece. */
  lemma {:induction false} BeforeFirstAbsent(s: string, sep: char)
    requires sep !in s
    ensures BeforeFirst(s, sep) == s
  {
    if s != [] {
      assert sep !in s[1..] by {
        assert forall k :: 0 <= k < |s[1..]| ==> s[1..][k] == s[k + 1];
      }
      BeforeFirstAbsent(s[1..], sep);
    }
  }

  /** The first piece ends at the first separator, whatever follows it. */
  lemma {:induction false} BeforeFirstAt(first: string, sep: char, rest: string)
    requires sep !in first
    ensures BeforeFirst(first + [sep] + rest, sep) == first
  {
    var s := first + [sep] + rest;
    if first != [] {
      assert s[1..] == first[1..] + [sep] + rest;
      assert sep !in first[1..] by {
        assert forall k :: 0 <= k < |first[1..]| ==> first[1..][k] == first[k + 1];
      }
      BeforeFirstAt(first[1..], sep, rest);
    }
  }

  /** `s[lo:hi]` for non-negative bounds: Python clamps both ends to the
      string and yields the empty string when they cross. */
  function Slice(s: string, lo: nat, hi: nat): (r: string)
    ensures |r| == (if lo < hi && lo < |s| then (if hi < |s| then hi else |s|) - lo else 0)
  {
    if lo < hi && lo < |s| then s[lo..if hi < |s| then hi else |s|] else []
  }

  /** The clamped slice holds the characters of `s` from `lo` on. */
  lemma SliceChars(s: string, lo: nat, hi: nat)
    ensures forall k :: 0 <= k < |Slice(s, lo, hi)| ==> Slice(s, lo, hi)[k] == s[lo + k]
  {
  }

  predicate IsHexDigit(c: char) {
    '0' <= c <= '9' || 'a' <= c <= 'f' || 'A' <= c <= 'F'
  }

  function HexDigit(c: char): (r: Option<nat>)
    ensures r.Some? <==> IsHexDigit(c)
    ensures r.Some? ==> r.value < 16
  {
    if '0' <= c <= '9' then Some(c as nat - '0' as nat)
    else if 'a' <= c <= 'f' then Some(c as nat - 'a' as nat + 10)
    else if 'A' <= c <= 'F' then Some(c as nat - 'A' as nat + 10)
    else None
  }

  function Pow16(n: nat): (r: nat)
    ensures r >= 1
  {
    if n == 0 then 1 else 16 * Pow16(n - 1)
  }

  /** `hex_to_int(s)`: the big-endian base-16 value of `s`, or `None` where
      the Python helper raises (empty text or a non-hex character). */
  function HexToInt(s: string): (r: Option<nat>)
    ensures r.Some? <==> |s| > 0 && forall i :: 0 <= i < |s| ==> IsHexDigit(s[i])
  {
    if |s| == 0 then None
    else
      var last := HexDigit(s[|s| - 1]);
      if last.None? then None
      else if |s| == 1 then last
      else
        var high := HexToInt(s[..|s| - 1]);
        if high.None? then None else Some(high.value * 16 + last.value)
  }

  /** `n` hex digits make a number below `16^n`. */
  lemma {:induction false} HexToIntSpec(s: string)
    ensures HexToInt(s).Some? ==> HexToInt(s).value < Pow16(|s|)
  {
    if |s| > 1 {
      var init := s[..|s| - 1];
      HexToIntSpec(init);
      assert forall i :: 0 <= i < |init| ==> init[i] == s[i];
      if HexToInt(s).Some? {
        assert HexToInt(init).value * 16 <= (Pow16(|init|) - 1) * 16;
      }
    }
  }

  /** A one- or two-character hex string is a byte. */
  lemma HexByteBound(s: string)
    requires |s| <= 2 && HexToInt(s).Some?
    ensures HexToInt(s).value < 256
  {
    HexToIntSpec(s);
    assert Pow16(|s|) <= Pow16(2);
  }

  /** Four hex digits, read as one 16-bit word, digit by digit. */
  lemma HexWord(s: string)
    requires |s| == 4 && forall i :: 0 <= i < 4 ==> IsHexDigit(s[i])
    ensures HexToInt(s) == Some(HexDigit(s[0]).value * 4096 + HexDigit(s[1]).value * 256
      + HexDigit(s[2]).value * 16 + HexDigit(s[3]).value)
  {
    var s3, s2, s1 := s[..3], s[..2], s[..1];
    assert s3[..2] == s2 && s2[..1] == s1;
    assert HexToInt(s1) == HexDigit(s[0]);
    assert HexToInt(s2) == Some(HexDigit(s[0]).value * 16 + HexDigit(s[1]).value);
    assert HexToInt(s3) == Some(HexToInt(s2).value * 16 + HexDigit(s[2]).value);
  }

  function DigitChar(d: nat): (c: char)
    requires d < 10
    ensures '0' <= c <= '9'
  {
    ('0' as nat + d) as char
  }

  /** `str(n)` for a natural number: its decimal digits, most significant first. */
  function Decimal(n: nat): (r: string)
    ensures 1 <= |r|
    ensures forall i :: 0 <= i < |r| ==> '0' <= r[i] <= '9'
    ensures |r| == 1 <==> n < 10
    ensures |r| > 1 ==> r[0] != '0'
  {
    if n < 10 then [DigitChar(n)] else Decimal(n / 10) + [DigitChar(n % 10)]
  }

  /** The value of a string of decimal digits; the reference `Decimal` inverts. */
  function ParseDecimal(s: string): nat
    requires forall i :: 0 <= i < |s| ==> '0' <= s[i] <= '9'
  {
    if s == [] then 0
    else ParseDecimal(s[..|s| - 1]) * 10 + (s[|s| - 1] as nat - '0' as nat)
  }

  /** `str(n)` loses nothing: reading the digits back gives `n`. */
  lemma {:induction false} DecimalRoundTrip(n: nat)
    ensures ParseDecimal(Decimal(n)) == n
  {
    var s := Decimal(n);
    if n >= 10 {
      assert s[..|s| - 1] == Decimal(n / 10);
      DecimalRoundTrip(n / 10);
    }
  }
}
