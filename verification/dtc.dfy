/** Diagnostic trouble codes (carberry_io/carberry_io.py): the string
    decoder `decrypt_dtc_code`, the word decoder and frame loop inside
    `get_dtc`, and `get_dtc` itself (modes 03 and 07 of SAE J1979).

    A DTC is a 16-bit word (SAE J2012): the top two bits pick the system
    letter P, C, B or U, the next two bits are the first digit, and the
    three remaining nibbles are the other digits. The code renders each
    nibble with Python's `str()`, so a nibble A-F comes out as "10"-"15". */
module Dtc {
  import opened Outcomes
  import opened Text
  import opened Wire
  import opened ObdPort

  const DtcLetters: seq<string> := ["P", "C", "B", "U"]

  /** `(w & mask) >> shift` for a contiguous mask of `size` values starting
      at bit value `unit`. */
  function Field(w: nat, unit: nat, size: nat): (f: nat)
    requires unit > 0 && size > 0
    ensures f < size
  {
    (w / unit) % size
  }

  /** The four digit renderings of a word: `(w & 0x3000) >> 12`,
      `(w & 0x0f00) >> 8`, `(w & 0x00f0) >> 4` and `w & 0x000f`, each through `str()`. */
  function Digits(w: nat): string {
    Decimal(Field(w, 0x1000, 4)) + Decimal(Field(w, 0x100, 16))
    + Decimal(Field(w, 0x10, 16)) + Decimal(Field(w, 1, 16))
  }

  /** The SAE J2012 decoding of a word, letter from the top two bits. This
      is what `get_dtc` evidently means and what `decrypt_dtc_code` does. */
  function WordCode(w: nat): (code: string)
    ensures 5 <= |code| <= 8
    ensures code[0] == "PCBU"[Field(w, 0x4000, 4)]
    ensures '0' <= code[1] <= '3' && code[1] as nat - '0' as nat == Field(w, 0x1000, 4)
  {
    DtcLetters[Field(w, 0x4000, 4)] + Digits(w)
  }

  /** The word decoder as written in `get_dtc`: the letter index is
      `(val & 0xC000) > 14`, a comparison, so it is 1 ("C") whenever either
      of the top two bits is set and 0 ("P") otherwise. */
  function WordCodeAsWritten(w: nat): (code: string)
    ensures 5 <= |code| <= 8
    ensures code[0] == 'P' || code[0] == 'C'
    ensures code[0] == 'P' <==> Field(w, 0x4000, 4) == 0
  {
    (if Field(w, 0x4000, 4) * 0x4000 > 14 then DtcLetters[1] else DtcLetters[0]) + Digits(w)
  }

  /** The as-written decoder agrees with the J2012 one exactly on the P and C
      words, and misnames every B and U word as a C word. */
  lemma AsWrittenAgreesOnlyOnPAndC(w: nat)
    ensures WordCodeAsWritten(w) == WordCode(w) <==> Field(w, 0x4000, 4) < 2
    ensures Field(w, 0x4000, 4) >= 2 ==> WordCodeAsWritten(w)[0] == 'C'
  {
    if Field(w, 0x4000, 4) >= 2 {
      assert WordCodeAsWritten(w)[0] != WordCode(w)[0];
    }
  }

  /** `str()` of a nibble: one digit below ten, "1" and a digit from ten on. */
  lemma DecimalNibble(n: nat)
    requires n < 16
    ensures n < 10 ==> Decimal(n) == [DigitChar(n)]
    ensures n >= 10 ==> Decimal(n) == ['1', DigitChar(n - 10)]
  {
    if n >= 10 {
      assert n / 10 == 1 && n % 10 == n - 10;
      assert Decimal(1) == ['1'];
    }
  }

  /** The digits of a word whose three low nibbles are all below ten. */
  lemma DigitsOf(w: nat, d1: nat, d2: nat, d3: nat, d4: nat)
    requires d1 < 4 && d2 < 10 && d3 < 10 && d4 < 10
    requires Field(w, 0x1000, 4) == d1 && Field(w, 0x100, 16) == d2
    requires Field(w, 0x10, 16) == d3 && Field(w, 1, 16) == d4
    ensures Digits(w) == [DigitChar(d1), DigitChar(d2), DigitChar(d3), DigitChar(d4)]
  {
    DecimalNibble(d1);
    DecimalNibble(d2);
    DecimalNibble(d3);
    DecimalNibble(d4);
  }

  /** The examples: 0x0143 is P0143 and 0x4143 is C0143 either way, but the
      body-system word 0x8143 comes out as C0143 instead of B0143. */
  lemma WordExamples()
    ensures WordCode(0x0143) == "P0143" && WordCodeAsWritten(0x0143) == "P0143"
    ensures WordCode(0x4143) == "C0143" && WordCodeAsWritten(0x4143) == "C0143"
    ensures WordCode(0x8143) == "B0143" && WordCodeAsWritten(0x8143) == "C0143"
  {
    assert Field(0x0143, 0x4000, 4) == 0 && Field(0x4143, 0x4000, 4) == 1 && Field(0x8143, 0x4000, 4) == 2;
    DigitsOf(0x0143, 0, 1, 4, 3);
    DigitsOf(0x4143, 0, 1, 4, 3);
    DigitsOf(0x8143, 0, 1, 4, 3);
  }

  /** Rendering nibbles in decimal loses information: two different words
      produce the same code string. */
  lemma NibbleRenderingAmbiguous()
    ensures WordCode(0x01B1) == WordCode(0x0B11) == "P01111"
  {
    assert Field(0x01B1, 0x4000, 4) == 0 && Field(0x0B11, 0x4000, 4) == 0;
    assert Field(0x01B1, 0x1000, 4) == 0 && Field(0x01B1, 0x100, 16) == 1;
    assert Field(0x01B1, 0x10, 16) == 11 && Field(0x01B1, 1, 16) == 1;
    assert Field(0x0B11, 0x1000, 4) == 0 && Field(0x0B11, 0x100, 16) == 11;
    assert Field(0x0B11, 0x10, 16) == 1 && Field(0x0B11, 1, 16) == 1;
    DecimalNibble(0);
    DecimalNibble(1);
    DecimalNibble(11);
  }

  /** One four-character group of `decrypt_dtc_code`: letter from the first
      hex digit `>> 2`, first digit from it `& 3`, then the other three hex
      digits, each rendered in decimal. */
  function DecodeGroup(group: string): (r: Outcome<string>)
    requires |group| >= 4
    ensures r.Ok? <==> forall k :: 0 <= k < 4 ==> IsHexDigit(group[k])
    ensures r.Raised? ==> r.error == BadHex
  {
    var h0, h1, h2, h3 := HexDigit(group[0]), HexDigit(group[1]), HexDigit(group[2]), HexDigit(group[3]);
    if h0.None? || h1.None? || h2.None? || h3.None? then Raised(BadHex)
    else
      Ok(DtcLetters[h0.value / 4] + Decimal(h0.value % 4) + Decimal(h1.value)
         + Decimal(h2.value) + Decimal(h3.value))
  }

  /** `decrypt_dtc_code` from the group `current` on, with `count` groups to go. */
  function DecryptFrom(current: string, count: nat): (r: Outcome<seq<string>>)
    ensures r.Ok? ==> |r.value| == count
    ensures r.Ok? <==>
      |current| >= 4 * count && forall k :: 0 <= k < 4 * count ==> IsHexDigit(current[k])
    ensures r.Raised? ==> r.error == BadHex || r.error == BadDtc
    ensures r.Raised? && r.error == BadDtc ==> |current| < 4 * count
    ensures |current| < 4 * count && (forall k :: 0 <= k < |current| ==> IsHexDigit(current[k]))
      ==> r == Raised(BadDtc)
    ensures r == Raised(BadDtc) <==>
      |current| < 4 * count && forall k :: 0 <= k < 4 * (|current| / 4) ==> IsHexDigit(current[k])
    ensures r.Ok? ==> forall i :: 0 <= i < count ==>
      DecodeGroup(current[4 * i..]) == Ok(r.value[i])
  {
    if count == 0 then Ok([])
    else if |current| < 4 then Raised(BadDtc)
    else match DecodeGroup(current)
      case Raised(e) => Raised(e)
      case Ok(code) =>
        assert (|current| - 4) / 4 == |current| / 4 - 1;
        assert forall k :: 4 <= k < 4 * (|current| / 4) ==> current[k] == current[4..][k - 4];
        match DecryptFrom(current[4..], count - 1)
        case Raised(e) => Raised(e)
        case Ok(codes) =>
          assert forall i :: 1 <= i < count ==> current[4 * i..] == current[4..][4 * (i - 1)..];
          Ok([code] + codes)
  }

  /** `decrypt_dtc_code`: exactly three codes from twelve hex digits; fewer
      than four characters left at any group raises. */
  function DecryptDtcCode(code: string): (r: Outcome<seq<string>>)
    ensures r.Ok? ==> |r.value| == 3
    ensures r.Ok? <==> |code| >= 12 && forall k :: 0 <= k < 12 ==> IsHexDigit(code[k])
  {
    DecryptFrom(code, 3)
  }

  /** Decoding four hex digits as text gives the J2012 decoding of the word
      they spell: the string decoder and the (intended) word decoder agree. */
  lemma DecodeGroupIsWordCode(group: string)
    requires |group| >= 4 && DecodeGroup(group).Ok?
    ensures HexToInt(group[..4]).Some?
    ensures DecodeGroup(group).value == WordCode(HexToInt(group[..4]).value)
  {
    var g := group[..4];
    var h0, h1, h2, h3 := HexDigit(g[0]).value, HexDigit(g[1]).value, HexDigit(g[2]).value, HexDigit(g[3]).value;
    HexWord(g);
    WordCodeOfDigits(h0, h1, h2, h3);
  }

  /** The J2012 decoding of the word spelled by four hex digits, digit by digit. */
  lemma WordCodeOfDigits(h0: nat, h1: nat, h2: nat, h3: nat)
    requires h0 < 16 && h1 < 16 && h2 < 16 && h3 < 16
    ensures WordCode(h0 * 4096 + h1 * 256 + h2 * 16 + h3) ==
      DtcLetters[h0 / 4] + Decimal(h0 % 4) + Decimal(h1) + Decimal(h2) + Decimal(h3)
  {
    var w := h0 * 4096 + h1 * 256 + h2 * 16 + h3;
    HexFields(h0, h1, h2, h3);
    WordCodeOfFields(w, h0 / 4, h0 % 4, h1, h2, h3);
  }

  /** `WordCode` only looks at the word's fields. */
  lemma WordCodeOfFields(w: nat, letter: nat, d0: nat, d1: nat, d2: nat, d3: nat)
    requires Field(w, 0x4000, 4) == letter && Field(w, 0x1000, 4) == d0
    requires Field(w, 0x100, 16) == d1 && Field(w, 0x10, 16) == d2 && Field(w, 1, 16) == d3
    ensures WordCode(w) == DtcLetters[letter] + Decimal(d0) + Decimal(d1) + Decimal(d2) + Decimal(d3)
  {
  }

  /** The fields of the word spelled by four hex digits are those digits. */
  lemma HexFields(h0: nat, h1: nat, h2: nat, h3: nat)
    requires h0 < 16 && h1 < 16 && h2 < 16 && h3 < 16
    ensures var w := h0 * 4096 + h1 * 256 + h2 * 16 + h3;
      && Field(w, 0x4000, 4) == h0 / 4 && Field(w, 0x1000, 4) == h0 % 4
      && Field(w, 0x100, 16) == h1 && Field(w, 0x10, 16) == h2 && Field(w, 1, 16) == h3
  {
    var w := h0 * 4096 + h1 * 256 + h2 * 16 + h3;
    assert w == (h0 * 256 + h1 * 16 + h2) * 16 + h3;
    DivSplit(h0 * 256 + h1 * 16 + h2, h3, 16);
    assert h0 * 256 + h1 * 16 + h2 == (h0 * 16 + h1) * 16 + h2;
    DivSplit(h0 * 16 + h1, h2, 16);
    assert w == (h0 * 16 + h1) * 256 + (h2 * 16 + h3);
    DivSplit(h0 * 16 + h1, h2 * 16 + h3, 256);
    DivSplit(h0, h1, 16);
    assert w == h0 * 4096 + (h1 * 256 + h2 * 16 + h3);
    DivSplit(h0, h1 * 256 + h2 * 16 + h3, 4096);
    assert w == (h0 / 4) * 0x4000 + ((h0 % 4) * 4096 + h1 * 256 + h2 * 16 + h3);
    DivSplit(h0 / 4, (h0 % 4) * 4096 + h1 * 256 + h2 * 16 + h3, 0x4000);
  }

  lemma MulAtLeast(k: nat, m: nat)
    requires k >= 1
    ensures k * m >= m
  {
    var j: nat := k - 1;
    assert k * m == j * m + m;
  }

  /** Division by `m` undoes `q * m + r` for a remainder below `m`. */
  lemma DivSplit(q: nat, r: nat, m: nat)
    requires r < m
    ensures (q * m + r) / m == q && (q * m + r) % m == r
  {
    var n := q * m + r;
    var d, rest := n / m, n % m;
    assert n == d * m + rest && 0 <= rest < m;
    if d > q {
      assert d * m == q * m + (d - q) * m;
      MulAtLeast(d - q, m);
      assert false;
    } else if d < q {
      assert q * m == d * m + (q - d) * m;
      MulAtLeast(q - d, m);
      assert false;
    }
  }

  /** Every code `decrypt_dtc_code` returns is the J2012 decoding of the
      corresponding four hex digits. */
  lemma DecryptDtcCodeIsWordCode(code: string)
    requires DecryptDtcCode(code).Ok?
    ensures forall i :: 0 <= i < 3 ==>
      HexToInt(code[4 * i..4 * i + 4]).Some? &&
      DecryptDtcCode(code).value[i] == WordCode(HexToInt(code[4 * i..4 * i + 4]).value)
  {
    forall i | 0 <= i < 3
      ensures HexToInt(code[4 * i..4 * i + 4]).Some?
      ensures DecryptDtcCode(code).value[i] == WordCode(HexToInt(code[4 * i..4 * i + 4]).value)
    {
      assert DecodeGroup(code[4 * i..]) == Ok(DecryptDtcCode(code).value[i]);
      DecodeGroupIsWordCode(code[4 * i..]);
      assert code[4 * i..][..4] == code[4 * i..4 * i + 4];
    }
  }

  datatype Status = Active | Passive

  datatype DtcEntry = DtcEntry(status: Status, code: string)

  /** `hex_to_int(res[lo:lo+2])`: at most two characters, so one or two hex
      digits, and `None` for an empty slice. */
  function SlotByte(res: string, lo: nat): (b: Option<nat>)
    ensures b.Some? ==> b.value < 256
  {
    var s := Slice(res, lo, lo + 2);
    if |s| == 0 then None
    else if |s| == 1 then HexDigit(s[0])
    else if HexDigit(s[0]).None? || HexDigit(s[1]).None? then None
    else Some(HexDigit(s[0]).value * 16 + HexDigit(s[1]).value)
  }

  /** The two-character shortcut is `hex_to_int` on the slice. */
  lemma SlotByteIsHexToInt(res: string, lo: nat)
    ensures SlotByte(res, lo) == HexToInt(Slice(res, lo, lo + 2))
  {
    var s := Slice(res, lo, lo + 2);
    if |s| == 2 {
      assert s[..1] == [s[0]];
    }
  }

  /** The word in slot `i` (0, 1 or 2) of a raw DTC response: the hex bytes
      at raw offsets `3+6i` and `6+6i`, read with Python's clamped slicing;
      `None` where `hex_to_int` raises. Two bytes: below 0x10000. */
  function SlotWord(res: string, i: nat): (w: Option<nat>)
    ensures w.Some? ==> w.value < 0x10000
  {
    var hi := SlotByte(res, 3 + 6 * i);
    var lo := SlotByte(res, 6 + 6 * i);
    if hi.None? || lo.None? then None else Some(hi.value * 256 + lo.value)
  }

  /** The three slot words of one raw response, in order. */
  function SlotWords(res: string): seq<Option<nat>> {
    [SlotWord(res, 0), SlotWord(res, 1), SlotWord(res, 2)]
  }

  /** The inner loop of `get_dtc` over the slot words of one response:
      decode each word with the as-written decoder, stopping at a zero word
      and raising at an unreadable one: only `BadHex` is raised, and there
      is at most one entry per word. Which entries is `FrameWordsSpec`. */
  function FrameWords(ws: seq<Option<nat>>, status: Status): (r: Outcome<seq<DtcEntry>>)
    ensures r.Raised? ==> r.error == BadHex
    ensures r.Ok? ==> |r.value| <= |ws|
  {
    if ws == [] then Ok([])
    else if ws[0].None? then Raised(BadHex)
    else if ws[0].value == 0 then Ok([])
    else
      match FrameWords(ws[1..], status)
      case Raised(e) => Raised(e)
      case Ok(rest) => Ok([DtcEntry(status, WordCodeAsWritten(ws[0].value))] + rest)
  }

  /** The entries are the leading non-zero words, in slot order, decoded
      as written, up to the first zero word, which ends the frame; the only
      exception is an unreadable word. */
  lemma {:induction false} FrameWordsSpec(ws: seq<Option<nat>>, status: Status)
    ensures var r := FrameWords(ws, status);
      && (r.Ok? ==> forall k :: 0 <= k < |r.value| ==>
            ws[k].Some? && ws[k].value != 0 && r.value[k] == DtcEntry(status, WordCodeAsWritten(ws[k].value)))
      && (r.Ok? && |r.value| < |ws| ==> ws[|r.value|] == Some(0))
  {
    if ws != [] && ws[0].Some? && ws[0].value != 0 {
      var tail := ws[1..];
      FrameWordsSpec(tail, status);
      var r := FrameWords(ws, status);
      if r.Ok? {
        var rest := FrameWords(tail, status).value;
        assert r.value == [DtcEntry(status, WordCodeAsWritten(ws[0].value))] + rest;
        forall k | 0 <= k < |r.value|
          ensures ws[k].Some? && ws[k].value != 0
          ensures r.value[k] == DtcEntry(status, WordCodeAsWritten(ws[k].value))
        {
          if k > 0 {
            assert ws[k] == tail[k - 1] && r.value[k] == rest[k - 1];
          }
        }
        if |r.value| < |ws| {
          assert ws[|r.value|] == tail[|rest|];
        }
      }
    }
  }

  /** The frame loop raises exactly when it meets an unreadable word before
      any zero word. */
  lemma {:induction false} FrameWordsRaises(ws: seq<Option<nat>>, status: Status)
    ensures FrameWords(ws, status).Raised? <==>
      exists j :: 0 <= j < |ws| && ws[j].None? && ReadableUpTo(ws, j)
  {
    if ws != [] {
      assert ReadableUpTo(ws, 0);
      if ws[0].Some? && ws[0].value != 0 {
        var tail := ws[1..];
        FrameWordsRaises(tail, status);
        if FrameWords(ws, status).Raised? {
          var j :| 0 <= j < |tail| && tail[j].None? && ReadableUpTo(tail, j);
          assert ws[j + 1].None?;
          assert ReadableUpTo(ws, j + 1) by {
            forall l | 0 <= l < j + 1
              ensures ws[l].Some? && ws[l].value != 0
            {
              if l > 0 {
                assert ws[l] == tail[l - 1];
              }
            }
          }
        } else {
          forall j | 0 <= j < |ws| && ws[j].None?
            ensures !ReadableUpTo(ws, j)
          {
            assert j > 0;
            assert tail[j - 1].None?;
            assert !ReadableUpTo(tail, j - 1);
            var l :| 0 <= l < j - 1 && !(tail[l].Some? && tail[l].value != 0);
            assert ws[l + 1] == tail[l];
          }
        }
      } else if ws[0].Some? {
        forall j | 0 <= j < |ws| && ws[j].None?
          ensures !ReadableUpTo(ws, j)
        {
          assert j != 0;
          assert !(ws[0].Some? && ws[0].value != 0);
        }
      }
    }
  }

  /** Every word before slot `j` is readable and non-zero. */
  predicate ReadableUpTo(ws: seq<Option<nat>>, j: nat)
    requires j <= |ws|
  {
    forall l :: 0 <= l < j ==> ws[l].Some? && ws[l].value != 0
  }

  function Repeat<T>(x: T, n: nat): (r: seq<T>)
    ensures |r| == n && forall k :: 0 <= k < n ==> r[k] == x
  {
    if n == 0 then [] else [x] + Repeat(x, n - 1)
  }

  /** The number of mode 03 requests for `dtcNumber` stored codes:
      `(dtcNumber+2)/3`, three codes per response. */
  function FrameCount(dtcNumber: nat): (n: nat)
    ensures 3 * n >= dtcNumber && 3 * n < dtcNumber + 3
  {
    (dtcNumber + 2) / 3
  }

  /** `(dtcNumber+2)/3` is the ceiling of `dtcNumber/3`: the fewest
      three-code frames that hold all the codes. */
  lemma FrameCountIsCeiling(dtcNumber: nat, n: nat)
    requires 3 * n >= dtcNumber
    ensures FrameCount(dtcNumber) <= n
  {
  }

  predicate AllHave(es: seq<DtcEntry>, status: Status) {
    forall k :: 0 <= k < |es| ==> es[k].status == status
  }

  /** Every response in a run was there. */
  predicate AllPresent(rs: seq<Option<string>>) {
    forall k :: 0 <= k < |rs| ==> rs[k].Some?
  }

  lemma AllPresentSnoc(rs: seq<Option<string>>)
    requires |rs| > 0 && AllPresent(rs[..|rs| - 1]) && rs[|rs| - 1].Some?
    ensures AllPresent(rs)
  {
    assert forall k :: 0 <= k < |rs| - 1 ==> rs[..|rs| - 1][k] == rs[k];
  }

  lemma RepeatSnoc<T>(x: T, n: nat)
    ensures Repeat(x, n + 1) == Repeat(x, n) + [x]
  {
  }

  predicate POrC(es: seq<DtcEntry>) {
    forall k :: 0 <= k < |es| ==> |es[k].code| > 0 && (es[k].code[0] == 'P' || es[k].code[0] == 'C')
  }

  /** The freeze-frame test `res[:7] == "NODATA"` compares a seven-character
      slice with a six-character literal: it holds for exactly "NODATA". */
  lemma FreezeTestIsExactMatch(res: string)
    ensures Slice(res, 0, 7) == NoDataText <==> res == NoDataText
  {
    if Slice(res, 0, 7) == NoDataText {
      assert |res| == 6;
      assert res == res[0..6];
    }
  }

  /** One request of the DTC loops and its response: the raw response is
      the next one on the line, and a missing one is concatenated to a
      string and raises. */
  method Request(q: Port, cmd: string) returns (r: Outcome<Step<string>>)
    ensures r.Raised? <==> !q.attached || Replies(q.line.input, 1)[0].None?
    ensures r.Raised? ==> r.error == TypeError
    ensures r.Ok? ==> r.value.port == q.(line := q.line.(
      input := After(q.line.input, 1), written := q.line.written + Frame(cmd)))
    ensures r.Ok? ==> Some(r.value.out) == Replies(q.line.input, 1)[0]
  {
    var g := GetResult(SendCommand(q, cmd));
    if g.out.None? {
      return Raised(TypeError);
    }
    return Ok(Step(g.port, g.out.value));
  }

  /** Reference definition of one raw response's entries: its slot words
      through the frame loop. `FrameWords` over `SlotWords` is the same
      loop (`FrameOfIsFrameWords`); this second form, indexed by slot, is
      kept because it unfolds one slot at a time, which keeps the proof
      of `DecodeFrame`'s loop invariant small. */
  function FrameOf(res: string, status: Status): Outcome<seq<DtcEntry>> {
    FrameFrom(res, status, 0)
  }

  /** The inner loop of `get_dtc` from slot `i` of a response on. */
  function FrameFrom(res: string, status: Status, i: nat): Outcome<seq<DtcEntry>>
    requires i <= 3
    decreases 3 - i
  {
    if i == 3 then Ok([])
    else
      var w := SlotWord(res, i);
      if w.None? then Raised(BadHex)
      else if w.value == 0 then Ok([])
      else
        match FrameFrom(res, status, i + 1)
        case Raised(e) => Raised(e)
        case Ok(rest) => Ok([DtcEntry(status, WordCodeAsWritten(w.value))] + rest)
  }

  /** Reading the slots one by one is the inner loop over the slot words. */
  lemma {:induction false} FrameFromIsFrameWords(res: string, status: Status, i: nat)
    requires i <= 3
    ensures FrameFrom(res, status, i) == FrameWords(SlotWords(res)[i..], status)
    decreases 3 - i
  {
    var ws := SlotWords(res)[i..];
    if i < 3 {
      FrameFromIsFrameWords(res, status, i + 1);
      assert ws[0] == SlotWord(res, i);
      assert ws[1..] == SlotWords(res)[i + 1..];
    }
  }

  /** The frame of a response is the inner loop over its three slot words. */
  lemma FrameOfIsFrameWords(res: string, status: Status)
    ensures FrameOf(res, status) == FrameWords(SlotWords(res), status)
  {
    FrameFromIsFrameWords(res, status, 0);
    assert SlotWords(res)[0..] == SlotWords(res);
  }

  /** The inner loop of `get_dtc` over one raw response: the three slot
      words in turn, stopping at a zero word and raising at an unreadable
      one. The result is the frame's reference decoding. */
  method DecodeFrame(res: string, status: Status) returns (r: Outcome<seq<DtcEntry>>)
    ensures r == FrameOf(res, status)
    ensures r.Raised? ==> r.error == BadHex
    ensures r.Ok? ==> |r.value| <= 3 && AllHave(r.value, status) && POrC(r.value)
  {
    FrameOfShape(res, status);
    var codes: seq<DtcEntry> := [];
    var i := 0;
    if FrameOf(res, status).Ok? {
      assert codes + FrameOf(res, status).value == FrameOf(res, status).value;
    }
    while i < 3
      invariant i <= 3
      invariant FrameOf(res, status) == Prefixed(codes, FrameFrom(res, status, i))
    {
      var w := SlotWord(res, i);
      if w.None? {
        return Raised(BadHex);
      }
      if w.value == 0 {
        assert codes + [] == codes;
        return Ok(codes);
      }
      var e := DtcEntry(status, WordCodeAsWritten(w.value));
      PrefixedCons(codes, e, FrameFrom(res, status, i + 1));
      codes := codes + [e];
      i := i + 1;
    }
    assert codes + [] == codes;
    return Ok(codes);
  }

  /** The entries `codes` already decoded, followed by the outcome of the
      rest of the loop. */
  function Prefixed(codes: seq<DtcEntry>, rest: Outcome<seq<DtcEntry>>): Outcome<seq<DtcEntry>> {
    match rest
    case Raised(e) => Raised(e)
    case Ok(more) => Ok(codes + more)
  }

  lemma PrefixedCons(codes: seq<DtcEntry>, e: DtcEntry, rest: Outcome<seq<DtcEntry>>)
    ensures Prefixed(codes, match rest case Raised(x) => Raised(x) case Ok(more) => Ok([e] + more))
      == Prefixed(codes + [e], rest)
  {
    if rest.Ok? {
      assert codes + ([e] + rest.value) == (codes + [e]) + rest.value;
    }
  }

  /** The entries of the first `k` frames, in order; the first frame that
      raised ends it with its exception. */
  function Joined<T>(fs: seq<Outcome<seq<T>>>, k: nat): Outcome<seq<T>>
    requires k <= |fs|
  {
    if k == 0 then Ok([])
    else match Joined(fs, k - 1)
      case Raised(e) => Raised(e)
      case Ok(prev) =>
        match fs[k - 1]
        case Raised(e) => Raised(e)
        case Ok(entries) => Ok(prev + entries)
  }

  /** Joining `k` frames only looks at those `k`. */
  lemma {:induction false} JoinedPrefix<T>(fs: seq<Outcome<seq<T>>>, gs: seq<Outcome<seq<T>>>, k: nat)
    requires k <= |fs| && k <= |gs|
    requires forall j :: 0 <= j < k ==> fs[j] == gs[j]
    ensures Joined(fs, k) == Joined(gs, k)
  {
    if k > 0 {
      JoinedPrefix(fs, gs, k - 1);
    }
  }

  /** Once a frame has raised, later frames change nothing. */
  lemma {:induction false} JoinedRaisedStays<T>(fs: seq<Outcome<seq<T>>>, m: nat, k: nat)
    requires m <= k <= |fs| && Joined(fs, m).Raised?
    decreases k
    ensures Joined(fs, k) == Joined(fs, m)
  {
    if k > m {
      JoinedRaisedStays(fs, m, k - 1);
    }
  }

  /** One mode 03 response decoded into Active entries; a missing one is
      concatenated to a string and raises `TypeError`. */
  function ActiveFrame(res: Option<string>): Outcome<seq<DtcEntry>> {
    if res.None? then Raised(TypeError) else FrameOf(res.value, Active)
  }

  /** Each response of a run, decoded. */
  function ActiveFrames(rs: seq<Option<string>>): (fs: seq<Outcome<seq<DtcEntry>>>)
    ensures |fs| == |rs| && forall j :: 0 <= j < |rs| ==> fs[j] == ActiveFrame(rs[j])
  {
    seq(|rs|, j requires 0 <= j < |rs| => ActiveFrame(rs[j]))
  }

  /** Reference definition of the mode 03 loop on its responses `rs`: each
      response decoded into Active entries, in order, the first exception
      ending the loop. */
  function ActiveOf(rs: seq<Option<string>>): Outcome<seq<DtcEntry>> {
    Joined(ActiveFrames(rs), |rs|)
  }

  /** The first `m` of `n` successive responses are the responses of `m`
      successive reads. */
  lemma {:induction false} RepliesPrefixOf(input: Stream, m: nat, n: nat)
    requires m <= n
    decreases n
    ensures forall j :: 0 <= j < m ==> Replies(input, n)[j] == Replies(input, m)[j]
  {
    if m < n {
      RepliesPrefixOf(input, m, n - 1);
      RepliesPrefix(input, n - 1);
      assert forall j :: 0 <= j < n - 1 ==> Replies(input, n)[j] == Replies(input, n)[..n - 1][j];
    }
  }

  /** A mode 03 loop that raised at response `i` raised over all `n`. */
  lemma ActiveRaisedAt(input: Stream, i: nat, n: nat)
    requires i < n && ActiveOf(Replies(input, i + 1)).Raised?
    ensures ActiveOf(Replies(input, n)) == ActiveOf(Replies(input, i + 1))
  {
    var fs, gs := ActiveFrames(Replies(input, n)), ActiveFrames(Replies(input, i + 1));
    RepliesPrefixOf(input, i + 1, n);
    JoinedPrefix(fs, gs, i + 1);
    JoinedRaisedStays(fs, i + 1, n);
  }

  /** One more response on top of `i`: the loop's reference result extends
      by that response's frame. */
  lemma ActiveStep(input: Stream, i: nat)
    ensures ActiveOf(Replies(input, i + 1)) ==
      match ActiveOf(Replies(input, i))
      case Raised(e) => Raised(e)
      case Ok(prev) =>
        match ActiveFrame(Replies(After(input, i), 1)[0])
        case Raised(e) => Raised(e)
        case Ok(entries) => Ok(prev + entries)
  {
    RepliesThenOne(input, i);
    var R, R' := Replies(input, i), Replies(input, i + 1);
    var fs, gs := ActiveFrames(R'), ActiveFrames(R);
    assert forall j :: 0 <= j < i ==> R'[j] == R'[..i][j];
    JoinedPrefix(fs, gs, i);
  }

  /** A frame's entries number at most three, carry its status and start
      with P or C; its only exception is `BadHex`. */
  lemma FrameOfShape(res: string, status: Status)
    ensures FrameOf(res, status).Raised? ==> FrameOf(res, status).error == BadHex
    ensures FrameOf(res, status).Ok? ==>
      var es := FrameOf(res, status).value;
      |es| <= 3 && AllHave(es, status) && POrC(es)
  {
    FrameOfIsFrameWords(res, status);
    FrameWordsSpec(SlotWords(res), status);
    if FrameOf(res, status).Ok? {
      var es := FrameOf(res, status).value;
      forall k | 0 <= k < |es|
        ensures es[k].status == status && |es[k].code| > 0 && (es[k].code[0] == 'P' || es[k].code[0] == 'C')
      {
      }
    }
  }

  lemma ShapeAppend(a: seq<DtcEntry>, b: seq<DtcEntry>, status: Status)
    requires AllHave(a, status) && POrC(a) && AllHave(b, status) && POrC(b)
    ensures AllHave(a + b, status) && POrC(a + b)
  {
    POrCAppend(a, b);
  }

  lemma POrCAppend(a: seq<DtcEntry>, b: seq<DtcEntry>)
    requires POrC(a) && POrC(b)
    ensures POrC(a + b)
  {
    assert forall k :: |a| <= k < |a + b| ==> (a + b)[k] == b[k - |a|];
  }

  /** An Active frame raises only `TypeError` (a missing response) or
      `BadHex`, exists only for a response that is there, and holds at most
      three Active P or C entries. */
  lemma ActiveFrameShape(res: Option<string>)
    ensures ActiveFrame(res).Raised? ==> ActiveFrame(res).error == TypeError || ActiveFrame(res).error == BadHex
    ensures ActiveFrame(res).Ok? ==> res.Some? && Framed(ActiveFrame(res).value, Active)
  {
    if res.Some? {
      FrameOfShape(res.value, Active);
    }
  }

  /** `ActiveFrameShape` for every frame of a run. */
  lemma ActiveFramesShape(rs: seq<Option<string>>)
    ensures forall j :: 0 <= j < |rs| && ActiveFrames(rs)[j].Raised? ==>
      ActiveFrames(rs)[j].error == TypeError || ActiveFrames(rs)[j].error == BadHex
    ensures forall j :: 0 <= j < |rs| && ActiveFrames(rs)[j].Ok? ==>
      rs[j].Some? && Framed(ActiveFrames(rs)[j].value, Active)
  {
    var fs := ActiveFrames(rs);
    forall j | 0 <= j < |rs|
      ensures fs[j].Raised? ==> fs[j].error == TypeError || fs[j].error == BadHex
      ensures fs[j].Ok? ==> rs[j].Some? && Framed(fs[j].value, Active)
    {
      ActiveFrameShape(rs[j]);
    }
  }

  /** At most three entries, all with `status`, each a P or C code. */
  predicate Framed(es: seq<DtcEntry>, status: Status) {
    |es| <= 3 && AllHave(es, status) && POrC(es)
  }

  /** A joined run raises only what one of its frames raised. */
  lemma {:induction false} JoinedErrors<T>(fs: seq<Outcome<seq<T>>>, k: nat)
    requires k <= |fs|
    requires forall j :: 0 <= j < k && fs[j].Raised? ==> fs[j].error == TypeError || fs[j].error == BadHex
    ensures Joined(fs, k).Raised? ==> Joined(fs, k).error == TypeError || Joined(fs, k).error == BadHex
  {
    if k > 0 {
      JoinedErrors(fs, k - 1);
    }
  }

  /** A joined run that did not raise had every frame decoded, and keeps
      the frames' shape. */
  lemma {:induction false} JoinedShape(fs: seq<Outcome<seq<DtcEntry>>>, k: nat, status: Status)
    requires k <= |fs|
    requires forall j :: 0 <= j < k && fs[j].Ok? ==> Framed(fs[j].value, status)
    requires Joined(fs, k).Ok?
    ensures forall j :: 0 <= j < k ==> fs[j].Ok?
    ensures var es := Joined(fs, k).value;
      |es| <= 3 * k && AllHave(es, status) && POrC(es)
  {
    if k > 0 {
      var prev := Joined(fs, k - 1);
      assert prev.Ok? && fs[k - 1].Ok?;
      JoinedShape(fs, k - 1, status);
      ShapeAppend(prev.value, fs[k - 1].value, status);
    }
  }

  /** One round of the mode 03 loop after `i` earlier ones: request `03`,
      read the response, decode it into Active entries and add them. */
  method ActiveRound(p: Port, i: nat, q: Port, active: seq<DtcEntry>) returns (r: Outcome<Step<seq<DtcEntry>>>)
    requires q == p.(line := p.line.(
      input := After(p.line.input, i), written := p.line.written + Frames(Repeat("03", i))))
    requires ActiveOf(Replies(p.line.input, i)) == Ok(active)
    ensures !p.attached ==> r == Raised(TypeError)
    ensures r.Ok? ==> r.value.port == p.(line := p.line.(
      input := After(p.line.input, i + 1), written := p.line.written + Frames(Repeat("03", i + 1))))
    ensures r.Ok? ==> ActiveOf(Replies(p.line.input, i + 1)) == Ok(r.value.out)
    ensures r.Raised? && p.attached ==> ActiveOf(Replies(p.line.input, i + 1)) == Raised(r.error)
  {
    RoundStep(p, i, "03");
    ActiveStep(p.line.input, i);
    var g := Request(q, "03");
    if g.Raised? {
      return Raised(g.error);
    }
    var frame := DecodeFrame(g.value.out, Active);
    if frame.Raised? {
      return Raised(frame.error);
    }
    return Ok(Step(g.value.port, active + frame.value));
  }

  /** The mode 03 loop of `get_dtc`: `n` requests, each response decoded
      into Active entries. A missing response is concatenated to a string
      and raises; an unreadable word raises too. */
  method ActiveCodes(p: Port, n: nat) returns (r: Outcome<Step<seq<DtcEntry>>>)
    ensures n == 0 ==> r.Ok?
    ensures n > 0 && !p.attached ==> r == Raised(TypeError)
    ensures r.Raised? ==> r.error == TypeError || r.error == BadHex
    ensures r.Ok? && n > 0 ==> p.attached
    // the transcript: `n` requests written, `n` responses read, all present
    ensures r.Ok? ==> r.value.port == p.(line := p.line.(
      input := After(p.line.input, n), written := p.line.written + Frames(Repeat("03", n))))
    ensures r.Ok? ==> AllPresent(Replies(p.line.input, n))
    // the entries: the reference decoding of the `n` responses
    ensures r.Ok? ==> ActiveOf(Replies(p.line.input, n)) == Ok(r.value.out)
    ensures r.Raised? && p.attached ==> ActiveOf(Replies(p.line.input, n)) == Raised(r.error)
    // at most three Active P or C codes per response
    ensures r.Ok? ==> |r.value.out| <= 3 * n && AllHave(r.value.out, Active) && POrC(r.value.out)
  {
    var q := p;
    var active: seq<DtcEntry> := [];
    var i := 0;
    assert After(p.line.input, 0) == p.line.input;
    assert p.line.written + Frames(Repeat("03", 0)) == p.line.written;
    while i < n
      invariant i <= n
      invariant i > 0 ==> p.attached
      invariant q == p.(line := p.line.(
        input := After(p.line.input, i), written := p.line.written + Frames(Repeat("03", i))))
      invariant ActiveOf(Replies(p.line.input, i)) == Ok(active)
    {
      var s := ActiveRound(p, i, q, active);
      if s.Raised? {
        if p.attached {
          ActiveRaisedAt(p.line.input, i, n);
          ActiveFramesShape(Replies(p.line.input, n));
          JoinedErrors(ActiveFrames(Replies(p.line.input, n)), n);
        }
        return Raised(s.error);
      }
      active := s.value.out;
      q := s.value.port;
      i := i + 1;
    }
    ActiveFramesShape(Replies(p.line.input, n));
    JoinedShape(ActiveFrames(Replies(p.line.input, n)), n, Active);
    return Ok(Step(q, active));
  }

  /** Reference definition of `get_dtc` on its responses, from the moment
      the monitor status has been read: the Active entries of the mode 03
      responses `active`, then, unless the mode 07 response `freeze` reads
      exactly "NODATA", its Passive entries. A missing mode 07 response
      raises when it is sliced. */
  function DtcsOf(active: seq<Option<string>>, freeze: Option<string>): Outcome<seq<DtcEntry>> {
    match ActiveOf(active)
    case Raised(e) => Raised(e)
    case Ok(codes) =>
      if freeze.None? then Raised(TypeError)
      else if freeze.value == NoDataText then Ok(codes)
      else
        match FrameOf(freeze.value, Passive)
        case Raised(e) => Raised(e)
        case Ok(passive) => Ok(codes + passive)
  }

  /** The mode 07 request of `get_dtc` after `n` mode 03 rounds that gave
      the entries `active`: its codes follow as Passive entries unless the
      raw response is exactly "NODATA". */
  method FreezeRound(p: Port, n: nat, q: Port, active: seq<DtcEntry>) returns (r: Outcome<Step<seq<DtcEntry>>>)
    requires q == p.(line := p.line.(
      input := After(p.line.input, n), written := p.line.written + Frames(Repeat("03", n))))
    requires ActiveOf(Replies(p.line.input, n)) == Ok(active)
    ensures !p.attached ==> r == Raised(TypeError)
    ensures r.Ok? ==> r.value.port == p.(line := p.line.(
      input := After(p.line.input, n + 1), written := p.line.written + Frames(Repeat("03", n) + ["07"])))
    ensures r.Ok? ==> Replies(p.line.input, n + 1)[n].Some?
    ensures r.Ok? ==> |active| <= |r.value.out| && r.value.out[..|active|] == active
    ensures r.Ok? ==> Framed(r.value.out[|active|..], Passive)
    ensures r.Ok? && Replies(p.line.input, n + 1)[n] == Some(NoDataText) ==> r.value.out == active
    ensures r.Raised? ==> r.error == TypeError || r.error == BadHex
    ensures var rs := Replies(p.line.input, n + 1);
      r.Ok? ==> DtcsOf(rs[..n], rs[n]) == Ok(r.value.out)
    ensures var rs := Replies(p.line.input, n + 1);
      r.Raised? && p.attached ==> DtcsOf(rs[..n], rs[n]) == Raised(r.error)
  {
    RoundStep(p, n, "07");
    var g := Request(q, "07");
    if g.Raised? {
      return Raised(g.error);
    }
    var res := g.value.out;
    FreezeTestIsExactMatch(res);
    if Slice(res, 0, 7) == NoDataText {
      assert active[..|active|] == active && active[|active|..] == [];
      return Ok(Step(g.value.port, active));
    }
    var frame := DecodeFrame(res, Passive);
    if frame.Raised? {
      return Raised(frame.error);
    }
    var all := active + frame.value;
    assert all[..|active|] == active && all[|active|..] == frame.value;
    return Ok(Step(g.value.port, all));
  }

  /** A raising mode 03 loop ends `get_dtc` with its exception. */
  lemma DtcsOfActiveRaised(active: seq<Option<string>>, freeze: Option<string>)
    requires ActiveOf(active).Raised?
    ensures DtcsOf(active, freeze) == Raised(ActiveOf(active).error)
  {
  }

  /** `get_dtc` from the moment the monitor status has been read: `p` is the
      port as `sensor(1)` left it and `dtcNumber` the count of stored codes
      that sensor's decoder reported. Then the mode 03 loop over
      `(dtcNumber+2)/3` responses, and one mode 07 request whose codes
      become Passive entries unless the raw response is exactly "NODATA". */
  method GetDtc(p: Port, dtcNumber: nat) returns (r: Outcome<Step<seq<DtcEntry>>>)
    ensures !p.attached ==> r == Raised(TypeError)
    ensures r.Raised? ==> r.error == TypeError || r.error == BadHex
    ensures r.Ok? ==> p.attached
    // the transcript: the mode 03 requests, then mode 07, one response each
    ensures r.Ok? ==> r.value.port == p.(line := p.line.(
      input := After(p.line.input, FrameCount(dtcNumber) + 1),
      written := p.line.written + Frames(Repeat("03", FrameCount(dtcNumber)) + ["07"])))
    ensures r.Ok? ==> AllPresent(Replies(p.line.input, FrameCount(dtcNumber) + 1))
    // the codes: P or C only, Active ones first, at most three per mode 03
    // response, then at most three Passive ones
    ensures r.Ok? ==> POrC(r.value.out)
    ensures r.Ok? ==> exists k :: (0 <= k <= |r.value.out| && k <= 3 * FrameCount(dtcNumber) &&
      AllHave(r.value.out[..k], Active) && AllHave(r.value.out[k..], Passive) && |r.value.out| - k <= 3)
    // no Passive entries when the mode 07 response is "NODATA"
    ensures r.Ok? && Replies(p.line.input, FrameCount(dtcNumber) + 1)[FrameCount(dtcNumber)] == Some(NoDataText)
      ==> AllHave(r.value.out, Active)
    // the entries: the reference decoding of the responses
    ensures var rs := Replies(p.line.input, FrameCount(dtcNumber) + 1);
      r.Ok? ==> DtcsOf(rs[..FrameCount(dtcNumber)], rs[FrameCount(dtcNumber)]) == Ok(r.value.out)
    ensures var rs := Replies(p.line.input, FrameCount(dtcNumber) + 1);
      r.Raised? && p.attached ==> DtcsOf(rs[..FrameCount(dtcNumber)], rs[FrameCount(dtcNumber)]) == Raised(r.error)
  {
    var n := FrameCount(dtcNumber);
    RepliesPrefix(p.line.input, n);
    var a := ActiveCodes(p, n);
    if a.Raised? {
      ghost var rs := Replies(p.line.input, n + 1);
      if p.attached {
        DtcsOfActiveRaised(rs[..n], rs[n]);
      }
      r := Raised(a.error);
    } else {
      var active := a.value.out;
      r := FreezeRound(p, n, a.value.port, active);
      if r.Ok? {
        var all := r.value.out;
        var k := |active|;
        assert all == all[..k] + all[k..];
        POrCAppend(active, all[k..]);
        assert k <= 3 * n && AllHave(all[..k], Active) && AllHave(all[k..], Passive) && |all| - k <= 3;
        AllPresentSnoc(Replies(p.line.input, n + 1));
      }
    }
  }

  /** One more request and response on top of `i` mode 03 rounds: the
      transcript grows by one request and one response, and the earlier
      responses stay what they were. */
  lemma RoundStep(p: Port, i: nat, cmd: string)
    ensures After(After(p.line.input, i), 1) == After(p.line.input, i + 1)
    ensures p.line.written + Frames(Repeat("03", i)) + Frame(cmd) ==
      p.line.written + Frames(Repeat("03", i) + [cmd])
    ensures Replies(p.line.input, i + 1)[i] == Replies(After(p.line.input, i), 1)[0]
    ensures Replies(p.line.input, i + 1)[..i] == Replies(p.line.input, i)
    ensures cmd == "03" ==> Repeat("03", i) + [cmd] == Repeat("03", i + 1)
  {
    RepliesThenOne(p.line.input, i);
    FramesAppend(Repeat("03", i), cmd);
    RepeatSnoc("03", i);
  }
}
