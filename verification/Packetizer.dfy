// The in-place H.264 packetizer: start codes (section B.1.1 of Annex B of ITU-T H.264) are
// overwritten by 4-byte big-endian lengths (section 5.2.4.1 of ISO/IEC 14496-15:2010).
module Packetizer {
  import opened Wrappers

  type Byte = x: int | 0 <= x < 256

  const LENGTH_LIMIT := 0x1_0000_0000

  const START_CODE: seq<Byte> := [0, 0, 0, 1]

  /** The test of the scanning loop; i < size - 4 keeps one byte behind the start code. */
  predicate IsStart(b: seq<Byte>, i: int) {
    0 <= i < |b| - 4 && b[i] == 0 && b[i + 1] == 0 && b[i + 2] == 0 && b[i + 3] == 1
  }

  // --------------------------------------------------------- the scanned units

  /** The unit that begins at mark, and all later ones, when scanning goes on at i. */
  function UnitsFrom(b: seq<Byte>, i: nat, mark: nat): (us: seq<seq<Byte>>)
    requires mark <= |b|
    ensures |us| >= 1
    decreases |b| - i
  {
    if i >= |b| - 4 then [b[mark..]]
    else if IsStart(b, i) && mark <= i then [b[mark..i]] + UnitsFrom(b, i + 1, i + 4)
    else UnitsFrom(b, i + 1, mark)
  }

  /** Position of the first start code at or after i. */
  function FirstStart(b: seq<Byte>, i: nat): (r: Option<nat>)
    ensures r.Some? ==> IsStart(b, r.value) && r.value >= i
    decreases |b| - i
  {
    if i >= |b| - 4 then None
    else if IsStart(b, i) then Some(i)
    else FirstStart(b, i + 1)
  }

  /** The NAL units of the buffer, in order. */
  function Units(b: seq<Byte>): seq<seq<Byte>> {
    var s := FirstStart(b, 0);
    if s.None? then [] else UnitsFrom(b, s.value + 1, s.value + 4)
  }

  /** dest[i + 4] & 0x1f; behind an empty unit the next start code begins, with a 0 */
  function NalType(u: seq<Byte>): nat {
    if u == [] then 0 else u[0] % 32
  }

  predicate IsParameterSet(t: int) {
    t == 7 || t == 8
  }

  /** The units after the last SPS or PPS among us. */
  function AfterParameterSets(us: seq<seq<Byte>>): seq<seq<Byte>> {
    if us == [] then []
    else if IsParameterSet(NalType(us[|us| - 1])) then []
    else AfterParameterSets(us[..|us| - 1]) + [us[|us| - 1]]
  }

  predicate HasParameterSet(us: seq<seq<Byte>>) {
    exists i :: 0 <= i < |us| && IsParameterSet(NalType(us[i]))
  }

  /** The units after the last SPS or PPS that is followed by another unit. */
  function Kept(us: seq<seq<Byte>>): seq<seq<Byte>>
    requires us != []
  {
    AfterParameterSets(us[..|us| - 1]) + [us[|us| - 1]]
  }

  /** The result is a suffix, preceded by a parameter set unless it is everything. */
  lemma {:induction false} AfterParameterSetsIsSuffix(us: seq<seq<Byte>>)
    ensures var k := |us| - |AfterParameterSets(us)|;
            && 0 <= k && AfterParameterSets(us) == us[k..]
            && (k > 0 ==> IsParameterSet(NalType(us[k - 1])))
            && (forall i :: k <= i < |us| ==> !IsParameterSet(NalType(us[i])))
            && (k == 0 <==> !HasParameterSet(us))
  {
    if us != [] {
      AfterParameterSetsIsSuffix(us[..|us| - 1]);
      if IsParameterSet(NalType(us[|us| - 1])) {
        assert AfterParameterSets(us) == us[|us|..];
      }
    }
  }

  /** The first bytes of sequence and picture parameter sets: nal_unit_type 7 or 8 behind a
      forbidden_zero_bit, which is not looked at, and any nal_ref_idc */
  const PARAMETER_SET_BYTES: set<int> := {0x07, 0x27, 0x47, 0x67, 0x87, 0xA7, 0xC7, 0xE7,
                                          0x08, 0x28, 0x48, 0x68, 0x88, 0xA8, 0xC8, 0xE8}

  predicate BeginsParameterSet(u: seq<Byte>) {
    u != [] && u[0] in PARAMETER_SET_BYTES
  }

  /** In bytes: of the kept units at most the last one is a parameter set, and the unit before them is. */
  lemma KeptExactly(us: seq<seq<Byte>>)
    requires us != []
    ensures var k := |us| - |Kept(us)|;
            && 0 <= k < |us| && Kept(us) == us[k..]
            && (k > 0 ==> BeginsParameterSet(us[k - 1]))
            && forall i :: k <= i < |us| - 1 ==> !BeginsParameterSet(us[i])
  {
    var init := us[..|us| - 1];
    AfterParameterSetsIsSuffix(init);
    assert us == init + [us[|us| - 1]];
    forall i | 0 <= i < |us| - 1
      ensures IsParameterSet(NalType(us[i])) <==> BeginsParameterSet(us[i])
    {
      assert init[i] == us[i];
    }
  }

  // -------------------------------------------------------------- the formats

  function BigEndian4(n: nat): (r: seq<Byte>)
    ensures |r| == 4
  {
    [n / 0x100_0000 % 256, n / 0x1_0000 % 256, n / 0x100 % 256, n % 256]
  }

  function FromBigEndian4(b: seq<Byte>): nat
    requires |b| == 4
  {
    var b0: int, b1: int, b2: int, b3: int := b[0], b[1], b[2], b[3];
    0x100_0000 * b0 + 0x1_0000 * b1 + 0x100 * b2 + b3
  }

  lemma BigEndianRoundTrip(n: nat)
    requires n < LENGTH_LIMIT
    ensures FromBigEndian4(BigEndian4(n)) == n
  {
    assert n / 0x100_0000 % 256 == n / 0x100_0000;
    assert n / 0x1_0000 == 256 * (n / 0x100_0000) + n / 0x1_0000 % 256;
    assert n / 0x100 == 256 * (n / 0x1_0000) + n / 0x100 % 256;
  }

  /** The first byte is the most significant one. */
  lemma BigEndianDigits(n: nat)
    requires n < LENGTH_LIMIT
    ensures var b := BigEndian4(n);
            var b0: int, b1: int, b2: int, b3: int := b[0], b[1], b[2], b[3];
            n == ((b0 * 0x100 + b1) * 0x100 + b2) * 0x100 + b3
  {
    BigEndianRoundTrip(n);
  }

  /** Annex B: each unit behind a start code */
  function AnnexB(us: seq<seq<Byte>>): seq<Byte> {
    if us == [] then [] else START_CODE + us[0] + AnnexB(us[1..])
  }

  /** AVC: each unit behind its length */
  function Avc(us: seq<seq<Byte>>): seq<Byte> {
    if us == [] then [] else Avc(us[..|us| - 1]) + (BigEndian4(|us[|us| - 1]|) + us[|us| - 1])
  }

  /** A reader of length-prefixed units. */
  function ReadAvc(b: seq<Byte>): Option<seq<seq<Byte>>> {
    if b == [] then Some([])
    else if |b| < 4 then None
    else
      var n := FromBigEndian4(b[..4]);
      if |b| < 4 + n then None
      else
        var rest := ReadAvc(b[4 + n..]);
        if rest.None? then None else Some([b[4..4 + n]] + rest.value)
  }

  lemma {:induction false} AvcCons(u: seq<Byte>, us: seq<seq<Byte>>)
    ensures Avc([u] + us) == BigEndian4(|u|) + u + Avc(us)
  {
    var all := [u] + us;
    if us == [] {
      assert all[..0] == [] && all[|all| - 1] == u;
    } else {
      var init, last := us[..|us| - 1], us[|us| - 1];
      AvcCons(u, init);
      assert all[..|all| - 1] == [u] + init && all[|all| - 1] == last;
      Assoc(BigEndian4(|u|) + u, Avc(init), BigEndian4(|last|) + last);
    }
  }

  /** The length-prefixed form reads back as exactly the units. */
  lemma {:induction false} AvcRoundTrip(us: seq<seq<Byte>>)
    requires forall u <- us :: |u| < LENGTH_LIMIT
    ensures ReadAvc(Avc(us)) == Some(us)
  {
    if us != [] {
      var u, rest := us[0], us[1..];
      AvcCons(u, rest);
      AvcRoundTrip(rest);
      assert us == [u] + rest;
      BigEndianRoundTrip(|u|);
      var b := Avc(us);
      assert b[..4] == BigEndian4(|u|) && b[4..4 + |u|] == u && b[4 + |u|..] == Avc(rest);
    }
  }

  /** The scanned units, behind start codes again, are the buffer from that start code on. */
  lemma {:induction false} UnitsFromRebuild(b: seq<Byte>, i: nat, mark: nat)
    requires mark <= |b|
    ensures AnnexB(UnitsFrom(b, i, mark)) == START_CODE + b[mark..]
    decreases |b| - i
  {
    var us := UnitsFrom(b, i, mark);
    if i >= |b| - 4 {
      assert us == [b[mark..]] && us[1..] == [];
    } else if IsStart(b, i) && mark <= i {
      UnitsFromRebuild(b, i + 1, i + 4);
      assert us[0] == b[mark..i] && us[1..] == UnitsFrom(b, i + 1, i + 4);
      assert b[i..i + 4] == START_CODE;
      assert b[mark..] == b[mark..i] + (b[i..i + 4] + b[i + 4..]);
    } else {
      UnitsFromRebuild(b, i + 1, mark);
    }
  }

  lemma AvcSnoc(us: seq<seq<Byte>>, u: seq<Byte>)
    ensures Avc(us + [u]) == Avc(us) + BigEndian4(|u|) + u
  {
    assert (us + [u])[..|us|] == us;
  }

  lemma UnitsRebuild(b: seq<Byte>)
    requires FirstStart(b, 0).Some?
    ensures AnnexB(Units(b)) == b[FirstStart(b, 0).value..]
  {
    var s := FirstStart(b, 0).value;
    UnitsFromRebuild(b, s + 1, s + 4);
    assert b[s..s + 4] == START_CODE;
    assert b[s..] == b[s..s + 4] + b[s + 4..];
  }

  /** Four bytes of u that form a start code */
  predicate CodeAt(u: seq<Byte>, k: int) {
    0 <= k && k + 4 <= |u| && u[k] == 0 && u[k + 1] == 0 && u[k + 2] == 0 && u[k + 3] == 1
  }

  ghost predicate NoCode(u: seq<Byte>) {
    forall k :: !CodeAt(u, k)
  }

  /** No start code with a byte behind it */
  ghost predicate NoStart(u: seq<Byte>) {
    forall k :: !IsStart(u, k)
  }

  /** Units that can be told apart: none contains a start code, but for one at the very end of the
      last unit, which is not empty. */
  ghost predicate Separable(us: seq<seq<Byte>>)
    decreases us
  {
    if us == [] then false
    else if |us| == 1 then us[0] != [] && NoStart(us[0])
    else NoCode(us[0]) && Separable(us[1..])
  }

  /** The scanned units are separable. */
  lemma {:induction false} UnitsFromSeparable(b: seq<Byte>, i: nat, mark: nat)
    requires mark < |b| && forall k :: mark <= k < i ==> !IsStart(b, k)
    ensures Separable(UnitsFrom(b, i, mark))
    decreases |b| - i
  {
    if i >= |b| - 4 {
      var u := b[mark..];
      forall k
        ensures !IsStart(u, k)
      {
        assert IsStart(u, k) ==> IsStart(b, mark + k);
      }
    } else if IsStart(b, i) && mark <= i {
      var u, rest := b[mark..i], UnitsFrom(b, i + 1, i + 4);
      UnitsFromSeparable(b, i + 1, i + 4);
      forall k
        ensures !CodeAt(u, k)
      {
        assert CodeAt(u, k) ==> IsStart(b, mark + k);
      }
      assert ([u] + rest)[1..] == rest;
    } else {
      UnitsFromSeparable(b, i + 1, mark);
    }
  }

  lemma UnitsSeparable(b: seq<Byte>)
    requires FirstStart(b, 0).Some?
    ensures Separable(Units(b))
  {
    var s := FirstStart(b, 0).value;
    UnitsFromSeparable(b, s + 1, s + 4);
  }

  /** The unit u begins at mark, and more units follow it. */
  ghost predicate UnitAt(b: seq<Byte>, mark: nat, u: seq<Byte>, rest: seq<seq<Byte>>) {
    && rest != [] && mark + |u| + 4 < |b|
    && b[mark..mark + |u|] == u
    && b[mark + |u|..mark + |u| + 4] == START_CODE
    && b[mark + |u| + 4..] == rest[0] + AnnexB(rest[1..])
  }

  lemma Sections(b: seq<Byte>, mark: nat, u: seq<Byte>, x: seq<Byte>, y: seq<Byte>)
    requires mark <= |b| && b[mark..] == u + (x + y)
    ensures |b| == mark + |u| + |x| + |y|
    ensures b[mark..mark + |u|] == u && b[mark + |u|..mark + |u| + |x|] == x && b[mark + |u| + |x|..] == y
  {
    var s := u + (x + y);
    assert s[..|u|] == u && s[|u|..|u| + |x|] == x && s[|u| + |x|..] == y;
    assert b[mark..mark + |u|] == b[mark..][..|u|];
    assert b[mark + |u|..mark + |u| + |x|] == b[mark..][|u|..|u| + |x|];
    assert b[mark + |u| + |x|..] == b[mark..][|u| + |x|..];
  }

  lemma MoreUnits(b: seq<Byte>, mark: nat, us: seq<seq<Byte>>)
    requires Separable(us) && |us| > 1 && mark <= |b| && b[mark..] == us[0] + AnnexB(us[1..])
    ensures UnitAt(b, mark, us[0], us[1..])
  {
    var rest := us[1..];
    ByteBehind(rest);
    Assoc(START_CODE, rest[0], AnnexB(rest[1..]));
    Sections(b, mark, us[0], START_CODE, rest[0] + AnnexB(rest[1..]));
  }

  /** Inside the unit no start code begins, not even one that overlaps the next. */
  lemma NoneInside(b: seq<Byte>, mark: nat, u: seq<Byte>, rest: seq<seq<Byte>>, i: nat)
    requires UnitAt(b, mark, u, rest) && NoCode(u) && mark <= i < mark + |u|
    ensures !IsStart(b, i)
  {
    var end := mark + |u|;
    assert forall k :: 0 <= k < |u| ==> u[k] == b[mark..end][k] == b[mark + k];
    assert forall k :: 0 <= k < 4 ==> b[end + k] == b[end..end + 4][k] == START_CODE[k];
    if IsStart(b, i) {
      assert i + 4 <= end ==> CodeAt(u, i - mark);
    }
  }

  lemma StartBehind(b: seq<Byte>, mark: nat, u: seq<Byte>, rest: seq<seq<Byte>>)
    requires UnitAt(b, mark, u, rest)
    ensures IsStart(b, mark + |u|)
  {
    var end := mark + |u|;
    assert forall k :: 0 <= k < 4 ==> b[end + k] == b[end..end + 4][k] == START_CODE[k];
  }

  /** Scanning on from i inside the unit that begins at mark */
  lemma {:induction false} ScanUnits(b: seq<Byte>, i: nat, mark: nat, us: seq<seq<Byte>>)
    requires Separable(us) && mark <= |b| && mark - 4 < i <= mark + |us[0]|
    requires b[mark..] == us[0] + AnnexB(us[1..])
    ensures UnitsFrom(b, i, mark) == us
    decreases |b| - i
  {
    if |us| == 1 {
      assert us[1..] == [] && b[mark..] == us[0];
      ScanLast(b, i, mark, us);
    } else {
      MoreUnits(b, mark, us);
      if i == mark + |us[0]| {
        StartBehind(b, mark, us[0], us[1..]);
        ScanUnits(b, i + 1, i + 4, us[1..]);
        assert us == [us[0]] + us[1..];
      } else {
        if mark <= i {
          NoneInside(b, mark, us[0], us[1..], i);
        }
        ScanUnits(b, i + 1, mark, us);
      }
    }
  }

  /** Something follows every start code. */
  lemma ByteBehind(us: seq<seq<Byte>>)
    requires Separable(us)
    ensures |AnnexB(us)| > 4
  {
    assert AnnexB(us) == START_CODE + us[0] + AnnexB(us[1..]);
    if |us| > 1 {
      assert AnnexB(us[1..]) == START_CODE + us[1..][0] + AnnexB(us[1..][1..]);
    }
  }

  lemma {:induction false} ScanLast(b: seq<Byte>, i: nat, mark: nat, us: seq<seq<Byte>>)
    requires Separable(us) && |us| == 1 && mark <= |b| && b[mark..] == us[0]
    ensures UnitsFrom(b, i, mark) == us
    decreases |b| - i
  {
    if i < |b| - 4 {
      var u := us[0];
      assert mark <= i ==> IsStart(u, i - mark) == IsStart(b, i);
      ScanLast(b, i + 1, mark, us);
    }
  }

  /** Scanning what was put behind start codes gives the units back; with UnitsSeparable and
      UnitsRebuild, the units are the only separable ones that make up the buffer. */
  lemma UnitsOfAnnexB(us: seq<seq<Byte>>)
    requires Separable(us)
    ensures Units(AnnexB(us)) == us
  {
    var b := AnnexB(us);
    ByteBehind(us);
    assert b == START_CODE + us[0] + AnnexB(us[1..]);
    assert IsStart(b, 0) && FirstStart(b, 0) == Some(0);
    assert b[4..] == us[0] + AnnexB(us[1..]);
    ScanUnits(b, 1, 4, us);
  }

  // ------------------------------------------------------------- the algorithm

  /** for (k = 1; k <= 4; k++) { dest[mark - k] = length & 0xff; length >>= 8; } */
  method WriteLength(dest: array<Byte>, mark: nat, len: nat)
    requires 4 <= mark <= dest.Length
    modifies dest
    ensures dest[..] == old(dest[..mark - 4]) + BigEndian4(len) + old(dest[mark..])
  {
    var length, k := len, 1;
    while k <= 4
      invariant 1 <= k <= 5
      invariant length == (if k == 1 then len else if k == 2 then len / 0x100
                           else if k == 3 then len / 0x1_0000 else if k == 4 then len / 0x100_0000
                           else len / 0x1_0000_0000)
      invariant k > 1 ==> dest[mark - 1] == len % 256
      invariant k > 2 ==> dest[mark - 2] == len / 0x100 % 256
      invariant k > 3 ==> dest[mark - 3] == len / 0x1_0000 % 256
      invariant k > 4 ==> dest[mark - 4] == len / 0x100_0000 % 256
      invariant dest[..mark - 4] == old(dest[..mark - 4]) && dest[mark..] == old(dest[mark..])
    {
      dest[mark - k] := length % 256;
      length := length / 256;
      k := k + 1;
    }
    assert dest[mark - 4..mark] == BigEndian4(len);
    assert dest[..] == dest[..mark - 4] + dest[mark - 4..mark] + dest[mark..];
  }

  /** What precedes the first start code stays in front, unless a parameter set cuts it off. */
  function Lead(b: seq<Byte>): seq<Byte> {
    var s := FirstStart(b, 0);
    if s.None? then b
    else if HasParameterSet(Units(b)[..|Units(b)| - 1]) then []
    else b[..s.value]
  }

  /** The start codes behind one start code cannot overlap it. */
  lemma NoOverlap(b: seq<Byte>, s: int, i: int)
    requires |b| >= 4 && 0 <= s && s + 4 <= |b| && b[s + 1] == 0 && b[s + 2] == 0 && b[s + 3] == 1
    requires s < i && IsStart(b, i)
    ensures s + 4 <= i
  {
  }

  /** The scan's state: done are the finished units still kept, in their new form. */
  ghost predicate Scanning(b: seq<Byte>, cur: seq<Byte>, i: nat, mark: nat, nalType: int, start: nat,
                           finished: seq<seq<Byte>>) {
    && |cur| == |b| && i + 4 <= |b|
    && (if nalType == -1 then
          && FirstStart(b, 0) == FirstStart(b, i) && start == 0 && cur == b && finished == []
        else
          && 4 <= mark < |b| && start <= mark - 4 && mark <= i + 4 && mark - 4 < i
          && IsStart(b, mark - 4)
          && nalType == b[mark] % 32
          && FirstStart(b, 0).Some?
          && Units(b) == finished + UnitsFrom(b, i, mark)
          && cur[mark - 4..] == b[mark - 4..]
          && cur[start..mark - 4] ==
             LeadOf(b, finished) + Avc(AfterParameterSets(finished)))
  }

  /** Ahead of the cursor the buffer is still the original one. */
  lemma ScanReads(b: seq<Byte>, cur: seq<Byte>, i: nat, mark: nat, nalType: int, start: nat, finished: seq<seq<Byte>>)
    requires Scanning(b, cur, i, mark, nalType, start, finished) && i + 4 < |b|
    ensures cur[i..] == b[i..]
    ensures IsStart(cur, i) == IsStart(b, i)
    ensures cur[i + 4] == b[i + 4]
  {
    if nalType != -1 {
      assert cur[i..] == cur[mark - 4..][i - (mark - 4)..];
      assert b[i..] == b[mark - 4..][i - (mark - 4)..];
    }
    assert forall k :: 0 <= k < 5 ==> cur[i..][k] == cur[i + k] && b[i..][k] == b[i + k];
    assert cur[i..][0] == b[i] && cur[i..][1] == b[i + 1] && cur[i..][2] == b[i + 2] && cur[i..][3] == b[i + 3];
    assert cur[i..][4] == b[i + 4];
  }

  lemma ScanSkip(b: seq<Byte>, cur: seq<Byte>, i: nat, mark: nat, nalType: int, start: nat, finished: seq<seq<Byte>>)
    requires Scanning(b, cur, i, mark, nalType, start, finished) && i + 4 < |b| && !IsStart(b, i)
    ensures Scanning(b, cur, i + 1, mark, nalType, start, finished)
  {
  }

  lemma ScanFirst(b: seq<Byte>, cur: seq<Byte>, i: nat, mark: nat, start: nat, finished: seq<seq<Byte>>)
    requires Scanning(b, cur, i, mark, -1, start, finished) && i + 4 < |b| && IsStart(b, i)
    ensures Scanning(b, cur, i + 1, i + 4, b[i + 4] % 32, start, finished)
  {
    assert finished + UnitsFrom(b, i + 1, i + 4) == Units(b);
    assert cur[0..i] == b[..i] + Avc([]);
  }

  /** The finished unit's type is the one recorded at its start code. */
  lemma UnitType(b: seq<Byte>, cur: seq<Byte>, i: nat, mark: nat, nalType: int, start: nat, finished: seq<seq<Byte>>)
    requires Scanning(b, cur, i, mark, nalType, start, finished) && nalType != -1
    requires i + 4 < |b| && IsStart(b, i)
    ensures mark <= i && NalType(b[mark..i]) == nalType
  {
    NoOverlap(b, mark - 4, i);
  }

  /** What finishing the unit u does to the lists of units. */
  lemma FinishUnit(b: seq<Byte>, i: nat, mark: nat, finished: seq<seq<Byte>>)
    requires i + 4 < |b| && IsStart(b, i) && mark <= i
    ensures var u := b[mark..i];
            var f := finished + [u];
            && finished + UnitsFrom(b, i, mark) == f + UnitsFrom(b, i + 1, i + 4)
            && (IsParameterSet(NalType(u)) ==> HasParameterSet(f) && AfterParameterSets(f) == [])
            && (!IsParameterSet(NalType(u)) ==>
                 && HasParameterSet(f) == HasParameterSet(finished)
                 && AfterParameterSets(f) == AfterParameterSets(finished) + [u])
  {
    var u := b[mark..i];
    var f := finished + [u];
    assert f + UnitsFrom(b, i + 1, i + 4) == finished + ([u] + UnitsFrom(b, i + 1, i + 4));
    assert f[..|f| - 1] == finished && f[|f| - 1] == u;
    assert forall k :: 0 <= k < |finished| ==> f[k] == finished[k];
  }

  lemma ScanCut(b: seq<Byte>, cur: seq<Byte>, i: nat, mark: nat, nalType: int, start: nat, finished: seq<seq<Byte>>)
    requires Scanning(b, cur, i, mark, nalType, start, finished) && nalType != -1
    requires i + 4 < |b| && IsStart(b, i) && IsParameterSet(nalType)
    ensures mark <= i
    ensures Scanning(b, cur, i + 1, i + 4, b[i + 4] % 32, i, finished + [b[mark..i]])
  {
    UnitType(b, cur, i, mark, nalType, start, finished);
    FinishUnit(b, i, mark, finished);
    assert cur[i..] == cur[mark - 4..][i - (mark - 4)..];
    assert b[i..] == b[mark - 4..][i - (mark - 4)..];
    assert cur[i..i] == [] + Avc([]);
  }

  /** The length goes where the start code was, in front of the unchanged payload. */
  lemma WriteExtends(b: seq<Byte>, cur: seq<Byte>, cur': seq<Byte>, start: nat, mark: nat, i: nat, len: nat)
    requires 4 <= mark <= i <= |b| == |cur| && start <= mark - 4
    requires cur[mark - 4..] == b[mark - 4..] && len == i - mark
    requires cur' == cur[..mark - 4] + BigEndian4(len) + cur[mark..]
    ensures |cur'| == |cur| && cur'[i..] == b[i..]
    ensures cur'[start..i] == cur[start..mark - 4] + BigEndian4(len) + b[mark..i]
  {
    assert cur[mark..] == cur[mark - 4..][4..] && b[mark..] == b[mark - 4..][4..];
    assert cur'[..i] == cur[..mark - 4] + BigEndian4(len) + b[mark..i];
    assert cur'[i..] == cur[mark..][i - mark..] && b[i..] == b[mark..][i - mark..];
  }

  /** So the encoded part grows by the unit that was finished. */
  lemma WriteEncodes(b: seq<Byte>, cur: seq<Byte>, cur': seq<Byte>, start: nat, mark: nat, i: nat,
                     lead: seq<Byte>, after: seq<seq<Byte>>)
    requires 4 <= mark <= i <= |b| == |cur| && start <= mark - 4
    requires cur[mark - 4..] == b[mark - 4..]
    requires cur' == cur[..mark - 4] + BigEndian4(i - mark) + cur[mark..]
    requires cur[start..mark - 4] == lead + Avc(after)
    ensures |cur'| == |cur| && cur'[i..] == b[i..]
    ensures cur'[start..i] == lead + Avc(after + [b[mark..i]])
  {
    var u := b[mark..i];
    WriteExtends(b, cur, cur', start, mark, i, i - mark);
    AvcSnoc(after, u);
    Assoc(lead, Avc(after), BigEndian4(|u|));
    Assoc(lead, Avc(after) + BigEndian4(|u|), u);
  }

  function LeadOf(b: seq<Byte>, finished: seq<seq<Byte>>): seq<Byte> {
    if HasParameterSet(finished) then []
    else if FirstStart(b, 0).Some? then b[..FirstStart(b, 0).value]
    else b
  }

  lemma ScanWrite(b: seq<Byte>, cur: seq<Byte>, cur': seq<Byte>, i: nat, mark: nat, nalType: int, start: nat,
                  finished: seq<seq<Byte>>)
    requires Scanning(b, cur, i, mark, nalType, start, finished) && nalType != -1
    requires i + 4 < |b| && IsStart(b, i) && !IsParameterSet(nalType)
    requires mark <= i && cur' == cur[..mark - 4] + BigEndian4(i - mark) + cur[mark..]
    ensures Scanning(b, cur', i + 1, i + 4, b[i + 4] % 32, start, finished + [b[mark..i]])
  {
    UnitType(b, cur, i, mark, nalType, start, finished);
    FinishUnit(b, i, mark, finished);
    WriteEncodes(b, cur, cur', start, mark, i, LeadOf(b, finished), AfterParameterSets(finished));
  }

  lemma ScanEnd(b: seq<Byte>, cur: seq<Byte>, cur': seq<Byte>, mark: nat, start: nat,
                lead: seq<Byte>, after: seq<seq<Byte>>)
    requires 4 <= mark < |b| == |cur| && start <= mark - 4
    requires cur[mark - 4..] == b[mark - 4..]
    requires cur[start..mark - 4] == lead + Avc(after)
    requires cur' == cur[..mark - 4] + BigEndian4(|b| - mark) + cur[mark..]
    ensures |cur'| == |b|
    ensures cur'[start..] == lead + Avc(after + [b[mark..]])
  {
    WriteEncodes(b, cur, cur', start, mark, |b|, lead, after);
    assert b[mark..|b|] == b[mark..];
    assert cur'[start..|b|] == cur'[start..];
  }

  lemma LastUnit(b: seq<Byte>, mark: nat, finished: seq<seq<Byte>>)
    requires mark <= |b| && Units(b) == finished + [b[mark..]]
    ensures Lead(b) == LeadOf(b, finished)
    ensures Kept(Units(b)) == AfterParameterSets(finished) + [b[mark..]]
  {
    assert Units(b)[..|Units(b)| - 1] == finished;
  }

  /** The end of the buffer closes the last unit. */
  method CloseLast(dest: array<Byte>, mark: nat, start: nat, ghost b: seq<Byte>, ghost finished: seq<seq<Byte>>)
    requires 4 <= mark < |b| == dest.Length && start <= mark - 4
    requires dest[mark - 4..] == b[mark - 4..]
    requires dest[start..mark - 4] == LeadOf(b, finished) + Avc(AfterParameterSets(finished))
    requires Units(b) == finished + [b[mark..]]
    modifies dest
    ensures dest[start..] == Lead(b) + Avc(Kept(Units(b)))
  {
    ghost var before := dest[..];
    WriteLength(dest, mark, dest.Length - mark);
    ScanEnd(b, before, dest[..], mark, start, LeadOf(b, finished), AfterParameterSets(finished));
    LastUnit(b, mark, finished);
  }

  /** gst_rrparser_to_packetized: start and size are the buffer's new data pointer and size. */
  method ToPacketized(dest: array<Byte>) returns (start: nat, size: nat)
    requires dest.Length < 0x8000_0000
    modifies dest
    ensures start <= dest.Length && size == dest.Length - start
    ensures var b := old(dest[..]);
            var us := Units(b);
            dest[start..] == if us == [] then b else Lead(b) + Avc(Kept(us))
  {
    ghost var b := dest[..];
    var mark: nat, nalType: int := 0, -1;
    start, size := 0, dest.Length;
    if dest.Length < 4 {
      return;
    }
    ghost var finished: seq<seq<Byte>> := [];
    var i := 0;
    while i < dest.Length - 4
      invariant 0 <= i <= dest.Length - 4 && start <= dest.Length && size == dest.Length - start
      invariant Scanning(b, dest[..], i, mark, nalType, start, finished)
    {
      ScanReads(b, dest[..], i, mark, nalType, start, finished);
      if dest[i] == 0 && dest[i + 1] == 0 && dest[i + 2] == 0 && dest[i + 3] == 1 {
        assert IsStart(dest[..], i);
        ghost var before := dest[..];
        var next := dest[i + 4] % 32;
        if nalType == -1 {
          ScanFirst(b, before, i, mark, start, finished);
        } else if nalType == 7 || nalType == 8 {
          ScanCut(b, before, i, mark, nalType, start, finished);
          start := i;
          size := dest.Length - i;
          finished := finished + [b[mark..i]];
        } else {
          UnitType(b, before, i, mark, nalType, start, finished);
          WriteLength(dest, mark, i - mark);
          ScanWrite(b, before, dest[..], i, mark, nalType, start, finished);
          finished := finished + [b[mark..i]];
        }
        mark := i + 4;
        nalType := next;
      } else {
        assert !IsStart(dest[..], i);
        ScanSkip(b, dest[..], i, mark, nalType, start, finished);
      }
      i := i + 1;
    }
    if nalType != -1 {
      assert UnitsFrom(b, i, mark) == [b[mark..]];
      CloseLast(dest, mark, start, b, finished);
    }
  }

  /** Reading the packetized buffer gives the kept units, when nothing precedes the first start code
      or a parameter set cut it off. */
  lemma PacketizedReads(b: seq<Byte>)
    requires |b| < 0x8000_0000 && Units(b) != [] && Lead(b) == []
    ensures ReadAvc(Lead(b) + Avc(Kept(Units(b)))) == Some(Kept(Units(b)))
  {
    var us := Kept(Units(b));
    UnitsShort(b, FirstStart(b, 0).value + 1, FirstStart(b, 0).value + 4);
    AfterParameterSetsIsSuffix(Units(b)[..|Units(b)| - 1]);
    assert forall u <- us :: u in Units(b);
    AvcRoundTrip(us);
    assert Lead(b) + Avc(us) == Avc(us);
  }

  lemma {:induction false} UnitsShort(b: seq<Byte>, i: nat, mark: nat)
    requires mark <= |b|
    ensures forall u <- UnitsFrom(b, i, mark) :: |u| <= |b|
    decreases |b| - i
  {
    if i < |b| - 4 {
      if IsStart(b, i) && mark <= i {
        UnitsShort(b, i + 1, i + 4);
      } else {
        UnitsShort(b, i + 1, mark);
      }
    }
  }

  /** In particular for every buffer that begins with a start code. */
  lemma PacketizedFromStartCode(b: seq<Byte>)
    requires |b| < 0x8000_0000 && IsStart(b, 0)
    ensures Units(b) != [] && Lead(b) == []
    ensures ReadAvc(Lead(b) + Avc(Kept(Units(b)))) == Some(Kept(Units(b)))
  {
    PacketizedReads(b);
  }
}
