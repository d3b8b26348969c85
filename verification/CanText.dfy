// The compact text form of CAN frames, "123#11.22" or "12345678#R": parse_canframe and
// sprint_canframe.
module CanText {
  import opened Wrappers

  type Byte = x: int | 0 <= x < 256

  const EFF_FLAG := 0x8000_0000
  const RTR_FLAG := 0x4000_0000
  const ERR_FLAG := 0x2000_0000
  const SFF_LIMIT := 0x800  // CAN_SFF_MASK + 1
  const ID_MODULUS := 0x1_0000_0000

  const CANID_DELIM := '#'
  const DATA_SEPARATOR := '.'

  /** struct can_frame with any field values it can hold */
  datatype Frame = Frame(id: nat, dlc: Byte, data: seq<Byte>) {
    predicate Valid() {
      id < ID_MODULUS && |data| == 8
    }
  }

  /** id & flag, for a single-bit flag */
  predicate Has(id: nat, flag: nat)
    requires flag > 0
  {
    id / flag % 2 == 1
  }

  /** id |= flag */
  function Set(id: nat, flag: nat): nat
    requires flag > 0
  {
    if Has(id, flag) then id else id + flag
  }

  // ------------------------------------------------------------------ nibbles

  /** asc2nibble; 16 means error */
  function Asc2Nibble(c: char): (r: nat)
    ensures r <= 16
  {
    if '0' <= c <= '9' then c as int - '0' as int
    else if 'A' <= c <= 'F' then c as int - 'A' as int + 10
    else if 'a' <= c <= 'f' then c as int - 'a' as int + 10
    else 16
  }

  /** One digit of "%X" */
  function HexDigit(n: nat): char
    requires n < 16
  {
    if n < 10 then (n + '0' as int) as char else (n - 10 + 'A' as int) as char
  }

  lemma NibbleRoundTrip(n: nat)
    requires n < 16
    ensures Asc2Nibble(HexDigit(n)) == n && HexDigit(n) != DATA_SEPARATOR && HexDigit(n) != CANID_DELIM
    ensures HexDigit(n) != 'R' && HexDigit(n) != 'r'
  {
  }

  function Pow16(n: nat): (r: nat)
    ensures r > 0
  {
    if n == 0 then 1 else 16 * Pow16(n - 1)
  }

  /** "%0nX" of a value below 16^n */
  function HexText(x: nat, n: nat): (s: string)
    ensures |s| == n
  {
    if n == 0 then "" else HexText(x / 16, n - 1) + [HexDigit(x % 16)]
  }

  /** The number that the hexadecimal digits of s denote. */
  function HexValue(s: string): Option<nat> {
    if s == "" then Some(0)
    else
      var v, d := HexValue(s[..|s| - 1]), Asc2Nibble(s[|s| - 1]);
      if v.None? || d > 0x0F then None else Some(16 * v.value + d)
  }

  lemma {:induction false} HexRoundTrip(x: nat, n: nat)
    requires x < Pow16(n)
    ensures HexValue(HexText(x, n)) == Some(x)
  {
    if n > 0 {
      HexRoundTrip(x / 16, n - 1);
      NibbleRoundTrip(x % 16);
      var s := HexText(x, n);
      assert s[..|s| - 1] == HexText(x / 16, n - 1);
    }
  }

  // -------------------------------------------------------------- data bytes

  /** cs[i], where the string ends with a NUL */
  function At(cs: string, i: nat): char {
    if i < |cs| then cs[i] else '\0'
  }

  /** The text after an optional separator. */
  function SkipDot(t: string): string {
    if t != "" && t[0] == DATA_SEPARATOR then t[1..] else t
  }

  /** The data loop on the text t, with n bytes of room left. */
  function ParseData(t: string, n: nat): (r: Option<seq<Byte>>)
    ensures r.Some? ==> |r.value| <= n
  {
    if n == 0 then Some([])
    else
      var t' := SkipDot(t);
      if t' == "" then Some([])
      else
        var hi, lo := Asc2Nibble(t'[0]), Asc2Nibble(At(t', 1));
        if |t'| < 2 || hi > 0x0F || lo > 0x0F then None
        else
          var rest := ParseData(t'[2..], n - 1);
          if rest.None? then None else Some([16 * hi + lo as Byte] + rest.value)
  }

  /** The data bytes of sprint_canframe, with a separator before all but the first one if sep. */
  function PrintData(data: seq<Byte>, sep: bool): string {
    if data == [] then ""
    else
      var rest := PrintData(data[1..], sep);
      HexText(data[0], 2) + (if sep && |data| > 1 then [DATA_SEPARATOR] + rest else rest)
  }

  lemma ByteText(b: Byte)
    ensures HexText(b, 2) == [HexDigit(b / 16), HexDigit(b % 16)]
  {
    assert HexText(b / 16, 1) == HexText(b / 16 / 16, 0) + [HexDigit(b / 16)];
  }

  lemma ParseByte(b: Byte, tail: string, n: nat)
    requires n > 0
    ensures ParseData(HexText(b, 2) + tail, n) ==
            var rest := ParseData(tail, n - 1); if rest.None? then None else Some([b] + rest.value)
  {
    ByteText(b);
    NibbleRoundTrip(b / 16);
    NibbleRoundTrip(b % 16);
    var t := HexText(b, 2) + tail;
    assert t[2..] == tail && t[0] == HexDigit(b / 16) && t[1] == HexDigit(b % 16);
  }

  lemma LeadingDot(t: string, n: nat)
    requires t == "" || t[0] != DATA_SEPARATOR
    ensures ParseData([DATA_SEPARATOR] + t, n) == ParseData(t, n)
  {
    assert ([DATA_SEPARATOR] + t)[1..] == t;
  }

  lemma PrintDataStart(data: seq<Byte>, sep: bool)
    ensures var t := PrintData(data, sep);
            t != "" ==> t[0] != 'R' && t[0] != 'r' && t[0] != DATA_SEPARATOR
  {
    if data != [] {
      ByteText(data[0]);
      NibbleRoundTrip(data[0] / 16);
      assert PrintData(data, sep)[0] == HexText(data[0], 2)[0];
    }
  }

  lemma Uncons(data: seq<Byte>)
    requires data != []
    ensures [data[0]] + data[1..] == data
  {
  }

  lemma {:induction false} DataRoundTrip(data: seq<Byte>, sep: bool, n: nat)
    requires |data| <= n
    ensures ParseData(PrintData(data, sep), n) == Some(data)
    decreases |data|
  {
    if data == [] {
      assert PrintData(data, sep) == "";
    } else {
      var rest := PrintData(data[1..], sep);
      DataRoundTrip(data[1..], sep, n - 1);
      PrintDataStart(data[1..], sep);
      LeadingDot(rest, n - 1);
      var tail := if sep && |data| > 1 then [DATA_SEPARATOR] + rest else rest;
      assert ParseData(tail, n - 1) == Some(data[1..]);
      ParseByte(data[0], tail, n);
      assert PrintData(data, sep) == HexText(data[0], 2) + tail;
      Uncons(data);
    }
  }

  /** A separator put in front of the k-th data byte of t, where there is none yet. */
  function InsertDot(t: string, k: nat): string {
    var d := |t| - |SkipDot(t)|;
    if k == 0 then (if d == 1 then t else [DATA_SEPARATOR] + t)
    else if |t| < d + 2 then t
    else t[..d + 2] + InsertDot(t[d + 2..], k - 1)
  }

  /** What the loop does with the next byte depends on its two digits and the text after them. */
  lemma ParseStep(t: string, u: string, d: nat, n: nat)
    requires n > 0 && d == |t| - |SkipDot(t)| && d + 2 <= |t| && d + 2 <= |u| && t[..d + 2] == u[..d + 2]
    requires ParseData(t[d + 2..], n - 1) == ParseData(u[d + 2..], n - 1)
    ensures ParseData(t, n) == ParseData(u, n)
  {
    assert forall i :: 0 <= i < d + 2 ==> t[i] == t[..d + 2][i] && u[i] == u[..d + 2][i];
    assert t[0] == u[0];
    assert SkipDot(t) == t[d..] && SkipDot(u) == u[d..];
    assert SkipDot(t)[0] == t[d] && SkipDot(t)[1] == t[d + 1];
    assert SkipDot(u)[0] == u[d] && SkipDot(u)[1] == u[d + 1];
    assert SkipDot(t)[2..] == t[d + 2..] && SkipDot(u)[2..] == u[d + 2..];
  }

  /** Separators are optional before every byte. */
  lemma {:induction false} DotsAreOptional(t: string, k: nat, n: nat)
    ensures ParseData(InsertDot(t, k), n) == ParseData(t, n)
    decreases k
  {
    var d := |t| - |SkipDot(t)|;
    if k == 0 {
      if d == 0 {
        LeadingDot(t, n);
      }
    } else if |t| >= d + 2 && n > 0 {
      var tail := InsertDot(t[d + 2..], k - 1);
      var u := t[..d + 2] + tail;
      DotsAreOptional(t[d + 2..], k - 1, n - 1);
      assert u[..d + 2] == t[..d + 2] && u[d + 2..] == tail;
      ParseStep(t, u, d, n);
    }
  }

  // -------------------------------------------------------------- whole frames

  function Pad(data: seq<Byte>): seq<Byte>
    requires |data| <= 8
  {
    data + seq(8 - |data|, i => 0 as Byte)
  }

  /** parse_canframe; None is the error return */
  function ParseFrame(cs: string): Option<Frame> {
    if |cs| < 4 then None
    else if cs[3] == CANID_DELIM then ParseBody(HexValue(cs[..3]), cs[4..])
    else if At(cs, 8) == CANID_DELIM then
      var v := HexValue(cs[..8]);
      ParseBody(if v.None? || Has(v.value, ERR_FLAG) then v else Some(Set(v.value, EFF_FLAG)), cs[9..])
    else None
  }

  /** The part after the delimiter */
  function ParseBody(id: Option<nat>, t: string): Option<Frame> {
    if id.None? then None
    else if t != "" && (t[0] == 'R' || t[0] == 'r') then Some(Frame(Set(id.value, RTR_FLAG), 0, Pad([])))
    else
      var data := ParseData(t, 8);
      if data.None? then None else Some(Frame(id.value, |data.value|, Pad(data.value)))
  }

  function Limit8(dlc: Byte): nat {
    if dlc > 8 then 8 else dlc
  }

  /** sprint_canframe */
  function PrintFrame(f: Frame, sep: bool): string
    requires f.Valid()
  {
    var head :=
      if Has(f.id, ERR_FLAG) then HexText(f.id % RTR_FLAG, 8)
      else if Has(f.id, EFF_FLAG) then HexText(f.id % ERR_FLAG, 8)
      else HexText(f.id % SFF_LIMIT, 3);
    head + [CANID_DELIM] + PrintBody(f, sep)
  }

  function PrintBody(f: Frame, sep: bool): string
    requires f.Valid()
  {
    if Has(f.id, RTR_FLAG) then "R" else PrintData(f.data[..Limit8(f.dlc)], sep)
  }

  /** An identifier that its text shows completely. */
  predicate CanonicalId(id: nat) {
    var low := id % ERR_FLAG;
    if Has(id, ERR_FLAG) then !Has(id, EFF_FLAG) else Has(id, EFF_FLAG) || low < SFF_LIMIT
  }

  /** Every field is shown by the text: no payload with RTR, no bytes behind the length. */
  predicate Canonical(f: Frame)
    requires f.Valid()
  {
    && CanonicalId(f.id)
    && f.dlc <= 8
    && (Has(f.id, RTR_FLAG) ==> f.dlc == 0)
    && (forall i :: f.dlc <= i < 8 ==> f.data[i] == 0)
  }

  /** The three top bits and the rest. */
  lemma SplitId(id: nat)
    requires id < ID_MODULUS
    ensures id == (if Has(id, EFF_FLAG) then EFF_FLAG else 0) + (if Has(id, RTR_FLAG) then RTR_FLAG else 0)
                + (if Has(id, ERR_FLAG) then ERR_FLAG else 0) + id % ERR_FLAG
    ensures id % RTR_FLAG == (if Has(id, ERR_FLAG) then ERR_FLAG else 0) + id % ERR_FLAG
  {
  }

  /** The identifier as parse_canframe reads it from the head of the text. */
  function ReadId(id: nat): nat {
    var low := id % ERR_FLAG;
    if Has(id, ERR_FLAG) then ERR_FLAG + low
    else if Has(id, EFF_FLAG) then EFF_FLAG + low
    else id % SFF_LIMIT
  }

  lemma Pow16Values()
    ensures Pow16(3) == 0x1000 && Pow16(8) == 0x1_0000_0000
  {
    assert Pow16(2) == 16 * Pow16(1) && Pow16(1) == 16 && Pow16(4) == 16 * Pow16(3);
    assert Pow16(6) == 16 * Pow16(5) && Pow16(5) == 16 * Pow16(4);
    assert Pow16(8) == 16 * Pow16(7) && Pow16(7) == 16 * Pow16(6);
  }

  lemma {:induction false} HexTextDigits(x: nat, n: nat, i: nat)
    requires i < n
    ensures HexText(x, n)[i] != CANID_DELIM
  {
    NibbleRoundTrip(x % 16);
    if i < n - 1 {
      HexTextDigits(x / 16, n - 1, i);
    }
  }

  lemma ParseHead3(x: nat, body: string)
    requires x < 0x1000
    ensures ParseFrame(HexText(x, 3) + [CANID_DELIM] + body) == ParseBody(Some(x), body)
  {
    Pow16Values();
    HexRoundTrip(x, 3);
    var cs := HexText(x, 3) + [CANID_DELIM] + body;
    assert cs[..3] == HexText(x, 3) && cs[4..] == body && cs[3] == CANID_DELIM;
  }

  lemma ParseHead8(x: nat, body: string)
    requires x < ID_MODULUS
    ensures ParseFrame(HexText(x, 8) + [CANID_DELIM] + body) ==
            ParseBody(Some(if Has(x, ERR_FLAG) then x else Set(x, EFF_FLAG)), body)
  {
    Pow16Values();
    HexRoundTrip(x, 8);
    HexTextDigits(x, 8, 3);
    var cs := HexText(x, 8) + [CANID_DELIM] + body;
    assert cs[..8] == HexText(x, 8) && cs[9..] == body && cs[8] == CANID_DELIM;
    assert cs[3] == HexText(x, 8)[3];
  }

  /** The flags of the identifier part of the text. */
  lemma HeadValue(id: nat)
    requires id < ID_MODULUS
    ensures Has(id, ERR_FLAG) ==> Has(id % RTR_FLAG, ERR_FLAG) && id % RTR_FLAG == ReadId(id)
    ensures !Has(id, ERR_FLAG) && Has(id, EFF_FLAG) ==>
              !Has(id % ERR_FLAG, ERR_FLAG) && Set(id % ERR_FLAG, EFF_FLAG) == ReadId(id)
  {
    SplitId(id);
  }

  /** Whatever the frame, the head of its text reads back as ReadId. */
  lemma ParsePrintHead(f: Frame, sep: bool)
    requires f.Valid()
    ensures ParseFrame(PrintFrame(f, sep)) == ParseBody(Some(ReadId(f.id)), PrintBody(f, sep))
  {
    HeadValue(f.id);
    var body := PrintBody(f, sep);
    if Has(f.id, ERR_FLAG) {
      ParseHead8(f.id % RTR_FLAG, body);
    } else if Has(f.id, EFF_FLAG) {
      ParseHead8(f.id % ERR_FLAG, body);
    } else {
      ParseHead3(f.id % SFF_LIMIT, body);
    }
  }

  /** Reading the identifier back loses nothing exactly when it is canonical. */
  lemma IdRoundTrip(id: nat)
    requires id < ID_MODULUS
    ensures !Has(id, RTR_FLAG) ==> (ReadId(id) == id <==> CanonicalId(id))
    ensures Has(id, RTR_FLAG) ==> (Set(ReadId(id), RTR_FLAG) == id <==> CanonicalId(id))
  {
    SplitId(id);
    assert !Has(ReadId(id), RTR_FLAG);
  }

  /** The text of a frame reads back as the frame exactly when the frame is canonical. */
  lemma FrameRoundTrip(f: Frame, sep: bool)
    requires f.Valid()
    ensures ParseFrame(PrintFrame(f, sep)) == Some(f) <==> Canonical(f)
  {
    ParsePrintHead(f, sep);
    IdRoundTrip(f.id);
    var n := if Has(f.id, RTR_FLAG) then 0 else Limit8(f.dlc);
    var data := f.data[..n];
    PadZero(f.data, n);
    if Has(f.id, RTR_FLAG) {
      assert PrintBody(f, sep) == "R" && data == [];
    } else {
      PrintDataStart(data, sep);
      DataRoundTrip(data, sep, 8);
    }
  }

  lemma PadZero(data: seq<Byte>, n: nat)
    requires |data| == 8 && n <= 8
    ensures Pad(data[..n]) == data <==> forall i :: n <= i < 8 ==> data[i] == 0
  {
    var p := Pad(data[..n]);
    assert forall i :: 0 <= i < 8 ==> p[i] == if i < n then data[i] else 0;
  }

  /** A separator before any data byte never changes what is parsed. */
  lemma FrameDotsOptional(head: string, t: string, k: nat)
    requires (|head| == 3 && CANID_DELIM !in head) || (|head| == 8 && CANID_DELIM !in head)
    requires t == "" || (t[0] != 'R' && t[0] != 'r')
    ensures ParseFrame(head + [CANID_DELIM] + InsertDot(t, k)) == ParseFrame(head + [CANID_DELIM] + t)
  {
    var a, b := head + [CANID_DELIM] + InsertDot(t, k), head + [CANID_DELIM] + t;
    DotsAreOptional(t, k, 8);
    assert a[..|head|] == head == b[..|head|];
    assert a[|head| + 1..] == InsertDot(t, k) && b[|head| + 1..] == t;
    assert |head| == 8 ==> a[3] == head[3] == b[3] && head[3] in head;
    var u := InsertDot(t, k);
    assert u == "" || (u[0] != 'R' && u[0] != 'r') by {
      if k > 0 && u != "" {
        assert u[0] == t[0];
      }
    }
  }

  // -------------------------------------------------------------- the C loops

  /** for (i = 0; i < n; i++) { tmp = asc2nibble(cs[i]); can_id |= tmp << (n-1-i)*4; } */
  method ReadDigits(cs: string, n: nat) returns (id: Option<nat>)
    requires n <= |cs|
    ensures id == HexValue(cs[..n])
  {
    var canId, i := 0, 0;
    while i < n
      invariant 0 <= i <= n
      invariant HexValue(cs[..i]).Some? && canId == HexValue(cs[..i]).value * Pow16(n - i)
    {
      assert cs[..i + 1][..i] == cs[..i];
      var tmp := Asc2Nibble(cs[i]);
      if tmp > 0x0F {
        PrefixFails(cs[..n], i + 1);
        assert cs[..n][..i + 1] == cs[..i + 1];
        return None;
      }
      DigitStep(HexValue(cs[..i]).value, tmp, n, i);
      canId := canId + tmp * Pow16(n - 1 - i);
      i := i + 1;
    }
    return Some(canId);
  }

  lemma DigitStep(v: nat, tmp: nat, n: nat, i: nat)
    requires i < n
    ensures v * Pow16(n - i) + tmp * Pow16(n - 1 - i) == (16 * v + tmp) * Pow16(n - (i + 1))
  {
    var p := Pow16(n - 1 - i);
    assert Pow16(n - i) == 16 * p;
    assert v * (16 * p) == (16 * v) * p;
    assert (16 * v) * p + tmp * p == (16 * v + tmp) * p;
  }

  lemma {:induction false} PrefixFails(s: string, i: nat)
    requires i <= |s| && HexValue(s[..i]).None?
    ensures HexValue(s).None?
    decreases |s| - i
  {
    if i < |s| {
      assert s[..i + 1][..i] == s[..i];
      PrefixFails(s, i + 1);
    } else {
      assert s[..i] == s;
    }
  }

  function Joined(front: seq<Byte>, rest: Option<seq<Byte>>): Option<seq<Byte>> {
    if rest.None? then None else Some(front + rest.value)
  }

  /** One turn of the data loop at index idx, with n bytes of room left. */
  lemma DataAt(cs: string, idx: nat, n: nat)
    requires idx <= |cs| && n > 0
    ensures var k := if At(cs, idx) == DATA_SEPARATOR then idx + 1 else idx;
            var hi, lo := Asc2Nibble(At(cs, k)), Asc2Nibble(At(cs, k + 1));
            ParseData(cs[idx..], n) ==
            if k >= |cs| then Some([])
            else if hi > 0x0F || lo > 0x0F then None
            else if k + 2 <= |cs| then Joined([16 * hi + lo], ParseData(cs[k + 2..], n - 1))
            else None
    ensures Asc2Nibble('\0') == 16
  {
    var t := cs[idx..];
    var k := if At(cs, idx) == DATA_SEPARATOR then idx + 1 else idx;
    assert SkipDot(t) == cs[k..];
    if k + 2 <= |cs| {
      assert cs[k..][2..] == cs[k + 2..];
    }
  }

  lemma JoinedEmpty(rest: Option<seq<Byte>>)
    ensures Joined([], rest) == rest
  {
    if rest.Some? {
      assert [] + rest.value == rest.value;
    }
  }

  lemma JoinedAssoc(front: seq<Byte>, b: Byte, rest: Option<seq<Byte>>)
    ensures Joined(front, Joined([b], rest)) == Joined(front + [b], rest)
  {
    if rest.Some? {
      assert front + ([b] + rest.value) == (front + [b]) + rest.value;
    }
  }

  datatype Turn = End | Bad | Next(b: Byte, idx: nat)

  /** The body of the data loop: skip a separator, stop at the end, read two digits */
  method ReadByte(cs: string, start: nat, ghost n: nat) returns (r: Turn)
    requires start <= |cs| && n > 0
    ensures r.Next? ==> r.idx <= |cs|
    ensures ParseData(cs[start..], n) ==
            match r
            case End => Some([])
            case Bad => None
            case Next(b, idx) => Joined([b], ParseData(cs[idx..], n - 1))
  {
    DataAt(cs, start, n);
    var idx := start;
    if At(cs, idx) == DATA_SEPARATOR {
      idx := idx + 1;
    }
    if idx >= |cs| {
      return End;
    }
    var hi := Asc2Nibble(At(cs, idx));
    if hi > 0x0F {
      return Bad;
    }
    var lo := Asc2Nibble(At(cs, idx + 1));
    if lo > 0x0F {
      return Bad;
    }
    return Next(16 * hi + lo, idx + 2);
  }

  /** for (i = 0, dlc = 0; i < 8; i++) { ... } from idx on */
  method ReadData(cs: string, start: nat) returns (data: Option<seq<Byte>>)
    requires start <= |cs|
    ensures data == ParseData(cs[start..], 8)
  {
    var bytes: seq<Byte>, idx: nat, i: nat := [], start, 0;
    ghost var all := ParseData(cs[start..], 8);
    JoinedEmpty(all);
    while i < 8
      invariant 0 <= i <= 8 && idx <= |cs| && |bytes| == i
      invariant all == Joined(bytes, ParseData(cs[idx..], 8 - i))
    {
      var turn := ReadByte(cs, idx, 8 - i);
      if turn.End? {
        break;
      }
      if turn.Bad? {
        return None;
      }
      JoinedAssoc(bytes, turn.b, ParseData(cs[turn.idx..], 7 - i));
      bytes := bytes + [turn.b];
      idx := turn.idx;
      i := i + 1;
    }
    assert bytes + [] == bytes;
    return Some(bytes);
  }

  /** parse_canframe */
  method ParseCanFrame(cs: string) returns (cf: Option<Frame>)
    ensures cf == ParseFrame(cs)
  {
    if |cs| < 4 {
      return None;
    }
    var id: Option<nat>, idx: nat;
    if cs[3] == CANID_DELIM {
      idx := 4;
      id := ReadDigits(cs, 3);
      if id.None? {
        return None;
      }
    } else if At(cs, 8) == CANID_DELIM {
      idx := 9;
      id := ReadDigits(cs, 8);
      if id.None? {
        return None;
      }
      if !Has(id.value, ERR_FLAG) {
        id := Some(Set(id.value, EFF_FLAG));
      }
    } else {
      return None;
    }
    if At(cs, idx) == 'R' || At(cs, idx) == 'r' {
      return Some(Frame(Set(id.value, RTR_FLAG), 0, Pad([])));
    }
    var data := ReadData(cs, idx);
    if data.None? {
      return None;
    }
    return Some(Frame(id.value, |data.value|, Pad(data.value)));
  }

  /** The data loop of sprint_canframe */
  method WriteData(data: seq<Byte>, sep: bool) returns (buf: string)
    ensures buf == PrintData(data, sep)
  {
    buf := "";
    var i := 0;
    while i < |data|
      invariant 0 <= i <= |data|
      invariant PrintData(data, sep) == buf + PrintData(data[i..], sep)
    {
      ghost var rest := PrintData(data[i + 1..], sep);
      assert data[i..][1..] == data[i + 1..];
      Assoc(buf, HexText(data[i], 2), if sep && i + 1 < |data| then [DATA_SEPARATOR] + rest else rest);
      buf := buf + HexText(data[i], 2);
      if sep && i + 1 < |data| {
        Assoc(buf, [DATA_SEPARATOR], rest);
        buf := buf + [DATA_SEPARATOR];
      }
      i := i + 1;
    }
  }

  /** sprint_canframe: what buf holds afterwards */
  method SprintCanFrame(f: Frame, sep: bool) returns (buf: string)
    requires f.Valid()
    ensures buf == PrintFrame(f, sep)
    ensures ParseFrame(buf) == Some(f) <==> Canonical(f)
  {
    FrameRoundTrip(f, sep);
    var dlc: nat := if f.dlc > 8 then 8 else f.dlc;
    if Has(f.id, ERR_FLAG) {
      buf := HexText(f.id % RTR_FLAG, 8) + [CANID_DELIM];
    } else if Has(f.id, EFF_FLAG) {
      buf := HexText(f.id % ERR_FLAG, 8) + [CANID_DELIM];
    } else {
      buf := HexText(f.id % SFF_LIMIT, 3) + [CANID_DELIM];
    }
    if Has(f.id, RTR_FLAG) {
      buf := buf + "R";
    } else {
      var data := WriteData(f.data[..dlc], sep);
      buf := buf + data;
    }
  }

  // ------------------------------------------------- the letters and the dots

  const HEX_DIGITS := "0123456789ABCDEF"

  /** Where the k-th byte begins in the printed data, sep or not */
  function ByteAt(k: nat, sep: bool): nat {
    if sep then 3 * k else 2 * k
  }

  lemma HexDigitIs(n: nat)
    requires n < 16
    ensures HexDigit(n) == HEX_DIGITS[n]
  {
  }

  lemma FirstByte(data: seq<Byte>, sep: bool)
    requires data != []
    ensures var dot, rest := if sep && |data| > 1 then [DATA_SEPARATOR] else "", PrintData(data[1..], sep);
            PrintData(data, sep) == [HEX_DIGITS[data[0] / 16], HEX_DIGITS[data[0] % 16]] + dot + rest
  {
    ByteText(data[0]);
    HexDigitIs(data[0] / 16);
    HexDigitIs(data[0] % 16);
  }

  /** Every byte is shown by two upper-case digits, and a dot stands between any two bytes, if at all. */
  lemma {:induction false} PrintDataAt(data: seq<Byte>, sep: bool, k: nat)
    requires k < |data|
    ensures var t, i := PrintData(data, sep), ByteAt(k, sep);
            && |t| == ByteAt(|data|, sep) - (if sep then 1 else 0)
            && t[i] == HEX_DIGITS[data[k] / 16] && t[i + 1] == HEX_DIGITS[data[k] % 16]
            && (sep && k + 1 < |data| ==> t[i + 2] == DATA_SEPARATOR)
    decreases |data|
  {
    FirstByte(data, sep);
    if |data| > 1 {
      PrintDataAt(data[1..], sep, if k == 0 then 0 else k - 1);
    } else {
      assert PrintData(data[1..], sep) == "";
    }
  }

  /** Of a letter, the upper-case one */
  function Upper(c: char): char {
    if 'a' <= c <= 'z' then (c as int - 32) as char else c
  }

  function UpperText(t: string): (u: string)
    ensures |u| == |t|
  {
    seq(|t|, i requires 0 <= i < |t| => Upper(t[i]))
  }

  lemma UpperSlices(t: string, i: nat)
    requires i <= |t|
    ensures UpperText(t)[..i] == UpperText(t[..i]) && UpperText(t)[i..] == UpperText(t[i..])
  {
  }

  lemma UpperNibble(c: char)
    ensures Asc2Nibble(Upper(c)) == Asc2Nibble(c)
    ensures Upper(c) == DATA_SEPARATOR <==> c == DATA_SEPARATOR
    ensures Upper(c) == CANID_DELIM <==> c == CANID_DELIM
    ensures (Upper(c) == 'R' || Upper(c) == 'r') <==> (c == 'R' || c == 'r')
  {
  }

  lemma {:induction false} UpperHex(s: string)
    ensures HexValue(UpperText(s)) == HexValue(s)
  {
    if s != "" {
      UpperSlices(s, |s| - 1);
      UpperNibble(s[|s| - 1]);
      UpperHex(s[..|s| - 1]);
    }
  }

  lemma UpperSkip(t: string)
    ensures SkipDot(UpperText(t)) == UpperText(SkipDot(t))
  {
    if t != "" {
      UpperNibble(t[0]);
      UpperSlices(t, 1);
    }
  }

  lemma {:induction false} UpperData(t: string, n: nat)
    ensures ParseData(UpperText(t), n) == ParseData(t, n)
    decreases n
  {
    UpperSkip(t);
    var d := SkipDot(t);
    if n > 0 && |d| >= 2 {
      UpperNibble(d[0]);
      UpperNibble(d[1]);
      UpperSlices(d, 2);
      UpperData(d[2..], n - 1);
    }
  }

  lemma UpperBody(id: Option<nat>, t: string)
    ensures ParseBody(id, UpperText(t)) == ParseBody(id, t)
  {
    UpperData(t, 8);
    if t != "" {
      UpperNibble(t[0]);
    }
  }

  /** parse_canframe takes small letters for capital ones, in digits as well as for "R". */
  lemma CaseDoesNotMatter(cs: string)
    ensures ParseFrame(UpperText(cs)) == ParseFrame(cs)
  {
    if |cs| >= 4 {
      UpperNibble(cs[3]);
      UpperSlices(cs, 3);
      UpperSlices(cs, 4);
      UpperHex(cs[..3]);
      var short := HexValue(cs[..3]);
      UpperBody(short, cs[4..]);
    }
    if |cs| >= 9 {
      UpperNibble(cs[8]);
      UpperSlices(cs, 8);
      UpperSlices(cs, 9);
      UpperHex(cs[..8]);
      var v := HexValue(cs[..8]);
      UpperBody(if v.None? || Has(v.value, ERR_FLAG) then v else Some(Set(v.value, EFF_FLAG)), cs[9..]);
    }
  }

  // ---------------------------------------------------------------- rejections

  predicate IsDigit(c: char) {
    '0' <= c <= '9' || 'A' <= c <= 'F' || 'a' <= c <= 'f'
  }

  lemma {:induction false} HexValueExact(s: string)
    ensures HexValue(s).Some? <==> forall c <- s :: IsDigit(c)
  {
    if s != "" {
      var init, last := s[..|s| - 1], s[|s| - 1];
      HexValueExact(init);
      assert IsDigit(last) <==> Asc2Nibble(last) <= 0x0F;
      assert s == init + [last] && last in s && forall c <- init :: c in s;
    }
  }

  predicate StartsRemote(t: string) {
    t != "" && (t[0] == 'R' || t[0] == 'r')
  }

  /** n digits, a # and a body that can be read */
  predicate Formed(cs: string, n: nat) {
    && n < |cs| && cs[n] == '#' && (forall c <- cs[..n] :: IsDigit(c))
    && (StartsRemote(cs[n + 1..]) || ParseData(cs[n + 1..], 8).Some?)
  }

  /** parse_canframe accepts identifiers of three and of eight digits, and nothing else. */
  lemma AcceptedFrames(cs: string)
    ensures ParseFrame(cs).Some? <==> Formed(cs, 3) || (Formed(cs, 8) && cs[3] != '#')
  {
    if |cs| >= 4 {
      HexValueExact(cs[..3]);
    }
    if |cs| >= 9 {
      HexValueExact(cs[..8]);
      assert IsDigit(cs[..8][3]) ==> cs[3] != '#';
    }
  }

  function Behind(data: seq<Byte>, r: Option<seq<Byte>>): Option<seq<Byte>> {
    if r.None? then None else Some(data + r.value)
  }

  lemma BehindCons(b: Byte, data: seq<Byte>, r: Option<seq<Byte>>)
    ensures Behind([b], Behind(data, r)) == Behind([b] + data, r) && Behind([], r) == r
  {
    if r.Some? {
      Assoc([b], data, r.value);
      assert [] + r.value == r.value;
    }
  }

  lemma PrependByte(b: Byte, rest: string, tail: string, n: nat)
    requires n > 0
    ensures ParseData(HexText(b, 2) + rest + tail, n) == Behind([b], ParseData(rest + tail, n - 1))
  {
    Assoc(HexText(b, 2), rest, tail);
    ParseByte(b, rest + tail, n);
  }

  lemma PrintCons(data: seq<Byte>)
    requires data != []
    ensures PrintData(data, false) == HexText(data[0], 2) + PrintData(data[1..], false)
  {
  }

  /** Behind the bytes read so far anything but another byte or the end is an error, as long as there
      is room; without room nothing more is looked at. */
  lemma {:induction false} DataTail(data: seq<Byte>, tail: string, n: nat)
    requires |data| <= n
    ensures ParseData(PrintData(data, false) + tail, n) == Behind(data, ParseData(tail, n - |data|))
    decreases |data|
  {
    if data == [] {
      assert PrintData(data, false) + tail == tail;
      BehindCons(0, [], ParseData(tail, n));
    } else {
      var b, bs := data[0], data[1..];
      DataTail(bs, tail, n - 1);
      PrintCons(data);
      PrependByte(b, PrintData(bs, false), tail, n);
      BehindCons(b, bs, ParseData(tail, n - |data|));
      Uncons(data);
    }
  }

  /** What cannot stand in the place of a byte */
  lemma NoByte(c: char, t: string, n: nat)
    requires n > 0 && c != DATA_SEPARATOR
    ensures !IsDigit(c) ==> ParseData([c] + t, n).None?
    ensures IsDigit(c) && (t == "" || !IsDigit(t[0])) ==> ParseData([c] + t, n).None?
    ensures ParseData(t, 0) == Some([]) && ParseData("", n) == Some([])
  {
    assert SkipDot([c] + t) == [c] + t;
  }
}
