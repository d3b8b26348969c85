// The full-duplex CAN test: can_echo_gen keeps up to 50 frames in flight and checks the
// echoes that can_echo_dut sends back, over two lossless FIFO channels.
module CanEcho {
  type Byte = x: int | 0 <= x < 256

  const CAN_MSG_ID := 0x77
  const CAN_MSG_LEN := 8
  const CAN_MSG_COUNT := 50
  const ID_MODULUS := 0x1_0000_0000

  /** struct can_frame: a 32-bit identifier, a length code and eight data bytes */
  datatype Frame = Frame(id: nat, dlc: nat, data: seq<Byte>) {
    predicate Valid() {
      id < ID_MODULUS && dlc <= 8 && |data| == 8
    }
  }

  function Wrap(x: int): Byte {
    x % 256
  }

  /** data[i]++ on an unsigned char */
  function Inc(b: Byte): Byte {
    var x: int := b;
    Wrap(x + 1)
  }

  /** The frame the generator sends for this value of its counter. */
  function Sent(counter: int): (f: Frame)
    ensures f.Valid()
  {
    Frame(CAN_MSG_ID, CAN_MSG_LEN, seq<Byte>(8, i => Wrap(counter + i)))
  }

  /** What the device does to a frame: identifier and data bytes are incremented, both with wrap-around. */
  function Echo(f: Frame): (r: Frame)
    requires f.Valid()
    ensures r.Valid()
  {
    Frame((f.id + 1) % ID_MODULUS, f.dlc,
          seq<Byte>(8, i requires 0 <= i < 8 => if i < f.dlc then Inc(f.data[i]) else f.data[i]))
  }

  /** The device answers a frame of the generator with the data of the next one, under the next identifier. */
  lemma EchoIsNext(counter: int)
    ensures Echo(Sent(counter)) == Sent(counter + 1).(id := 0x78)
  {
    var e, n := Echo(Sent(counter)).data, Sent(counter + 1).data;
    forall i | 0 <= i < 8
      ensures e[i] == n[i]
    {
      NextByte(counter + i);
    }
    assert e == n;
  }

  lemma NextByte(x: int)
    ensures Inc(Wrap(x)) == Wrap(x + 1)
  {
    assert x == 256 * (x / 256) + x % 256;
    assert x % 256 == 255 ==> x + 1 == 256 * (x / 256 + 1);
  }

  /** Of any frame: the bytes within the length are counted up, 0xff to 0x00, and so is the identifier;
      length and the bytes behind it come back unchanged. */
  lemma EchoCounts(f: Frame, i: nat)
    requires f.Valid() && i < 8
    ensures var e := Echo(f);
            && e.dlc == f.dlc
            && (f.id == 0xFFFF_FFFF ==> e.id == 0) && (f.id < 0xFFFF_FFFF ==> e.id == f.id + 1)
            && (f.dlc <= i || (f.data[i] == 0xFF && e.data[i] == 0) || e.data[i] - f.data[i] == 1)
            && (f.dlc <= i ==> e.data[i] == f.data[i])
  {
    var b: int := f.data[i];
    assert b < 255 ==> (b + 1) % 256 == b + 1;
  }

  /** What compare_frame accepts: identifier, length and the bytes up to the length. */
  predicate Matches(exp: Frame, rec: Frame)
    requires exp.Valid() && rec.Valid()
  {
    && rec.id == exp.id && rec.dlc == exp.dlc
    && forall i :: 0 <= i < rec.dlc ==> rec.data[i] == exp.data[i]
  }

  /** A frame is accepted exactly if it is the expected one but for bytes behind its length. */
  lemma MatchesExactly(exp: Frame, rec: Frame)
    requires exp.Valid() && rec.Valid()
    ensures Matches(exp, rec) <==> rec == exp.(data := exp.data[..exp.dlc] + rec.data[exp.dlc..])
  {
    if Matches(exp, rec) {
      assert rec.data == exp.data[..exp.dlc] + rec.data[exp.dlc..];
    } else if rec.id == exp.id && rec.dlc == exp.dlc {
      var i :| 0 <= i < rec.dlc && rec.data[i] != exp.data[i];
      assert (exp.data[..exp.dlc] + rec.data[exp.dlc..])[i] == exp.data[i];
    }
  }

  /** An echo out of turn is noticed, unless it is late or early by a multiple of 256 frames. */
  lemma OutOfTurn(c: int, d: int)
    ensures Matches(Echo(Sent(c)), Echo(Sent(d))) <==> Wrap(c) == Wrap(d)
  {
    var x, y := Echo(Sent(c)), Echo(Sent(d));
    EchoIsNext(c);
    EchoIsNext(d);
    assert x.data[0] == Wrap(c + 1) && y.data[0] == Wrap(d + 1);
    if Wrap(c) == Wrap(d) {
      forall i | 0 <= i < 8
        ensures x.data[i] == y.data[i]
      {
        SameShift(c, d, i + 1);
      }
    } else if Wrap(c + 1) == Wrap(d + 1) {
      SameShift(c + 1, d + 1, -1);
    }
  }

  lemma SameShift(c: int, d: int, k: int)
    requires Wrap(c) == Wrap(d)
    ensures Wrap(c + k) == Wrap(d + k)
  {
    assert c - d == 256 * (c / 256 - d / 256);
    assert c + k == 256 * (c / 256 - d / 256) + (d + k);
    assert (c + k) % 256 == (d + k) % 256 by {
      var q, r := (d + k) / 256, (d + k) % 256;
      assert c + k == 256 * (c / 256 - d / 256 + q) + r;
    }
  }

  // ------------------------------------------------------ the two loop bodies

  /** can_echo_dut between recv_frame and send_frame */
  method EchoFrame(f: Frame) returns (r: Frame)
    requires f.Valid()
    ensures r == Echo(f)
  {
    r := f.(id := (f.id + 1) % ID_MODULUS);
    var i := 0;
    while i < r.dlc
      invariant 0 <= i <= f.dlc && r.dlc == f.dlc && r.id == Echo(f).id && |r.data| == 8
      invariant forall k :: 0 <= k < 8 ==> r.data[k] == if k < i then Inc(f.data[k]) else f.data[k]
    {
      r := r.(data := r.data[i := Inc(r.data[i])]);
      i := i + 1;
    }
    assert r.data == Echo(f).data;
  }

  /** compare_frame: running is cleared by any mismatch and otherwise kept */
  method CompareFrame(exp: Frame, rec: Frame, running: bool) returns (r: bool)
    requires exp.Valid() && rec.Valid()
    ensures r == (running && Matches(exp, rec))
  {
    r := running;
    if rec.id != exp.id {
      r := false;
    } else if rec.dlc != exp.dlc {
      r := false;
    } else {
      var i := 0;
      while i < rec.dlc
        invariant 0 <= i <= rec.dlc
        invariant r == (running && forall k :: 0 <= k < i ==> rec.data[k] == exp.data[k])
      {
        if rec.data[i] != exp.data[i] {
          r := false;
        }
        i := i + 1;
      }
    }
  }

  /** The local state of can_echo_gen, and the global running */
  datatype Gen = Gen(tx: seq<Frame>, counter: Byte, sendPos: nat, recvPos: nat, unprocessed: nat,
                     loops: nat, running: bool, done: bool) {
    predicate Valid() {
      && |tx| == CAN_MSG_COUNT && sendPos < CAN_MSG_COUNT && recvPos < CAN_MSG_COUNT
      && unprocessed <= CAN_MSG_COUNT && forall i :: 0 <= i < CAN_MSG_COUNT ==> tx[i].Valid()
    }

    /** Still in "while (running)" */
    predicate Active() {
      running && !done
    }
  }

  function NextPos(p: nat): nat {
    if p + 1 == CAN_MSG_COUNT then 0 else p + 1
  }

  /** The sending branch: the ring keeps the expected echo of the frame sent. */
  function AfterSend(g: Gen): Gen
    requires g.Valid() && g.unprocessed < CAN_MSG_COUNT
  {
    g.(tx := g.tx[g.sendPos := Echo(Sent(g.counter))], sendPos := NextPos(g.sendPos),
       unprocessed := g.unprocessed + 1, counter := Inc(g.counter))
  }

  /** The receiving branch, for the frame rx. */
  function AfterReceive(g: Gen, rx: Frame, testLoops: nat): Gen
    requires g.Valid() && g.unprocessed == CAN_MSG_COUNT && rx.Valid()
  {
    var g' := g.(running := g.running && Matches(g.tx[g.recvPos], rx), loops := g.loops + 1);
    if testLoops > 0 && g'.loops >= testLoops then g'.(done := true)
    else g'.(recvPos := NextPos(g.recvPos), unprocessed := g.unprocessed - 1)
  }

  class Generator {
    var tx: array<Frame>
    var counter: Byte
    var sendPos: nat
    var recvPos: nat
    var unprocessed: nat
    var loops: nat
    var running: bool
    var done: bool

    function State(): Gen
      reads this, tx
    {
      Gen(tx[..], counter, sendPos, recvPos, unprocessed, loops, running, done)
    }

    constructor ()
      ensures State().Valid() && fresh(tx)
      ensures State() == Start(State().tx)
    {
      tx := new Frame[CAN_MSG_COUNT](i => Frame(0, 0, seq(8, j => 0 as Byte)));
      counter, sendPos, recvPos, unprocessed, loops := 0, 0, 0, 0, 0;
      running, done := true, false;
      new;
      assert forall i :: 0 <= i < CAN_MSG_COUNT ==> tx[..][i] == tx[i];
    }

    /** if (unprocessed < CAN_MSG_COUNT): frame is what send_frame gets */
    method Send() returns (frame: Frame)
      requires State().Valid() && unprocessed < CAN_MSG_COUNT
      modifies this, tx
      ensures tx == old(tx) && State() == AfterSend(old(State())) && State().Valid()
      ensures frame == Sent(old(counter))
    {
      frame := Frame(CAN_MSG_ID, CAN_MSG_LEN, tx[sendPos].data);
      var i := 0;
      while i < CAN_MSG_LEN
        invariant 0 <= i <= 8 && frame.Valid() && frame.id == CAN_MSG_ID && frame.dlc == CAN_MSG_LEN
        invariant forall k :: 0 <= k < i ==> frame.data[k] == Wrap(counter + k)
      {
        frame := frame.(data := frame.data[i := Wrap(counter + i)]);
        i := i + 1;
      }
      assert frame.data == Sent(counter).data;
      tx[sendPos] := frame;
      var expected := EchoFrame(frame);
      tx[sendPos] := expected;
      sendPos := sendPos + 1;
      if sendPos == CAN_MSG_COUNT {
        sendPos := 0;
      }
      unprocessed := unprocessed + 1;
      counter := Inc(counter);
    }

    /** The else branch, for the frame that recv_frame delivered */
    method Receive(rx: Frame, testLoops: nat)
      requires State().Valid() && unprocessed == CAN_MSG_COUNT && rx.Valid()
      modifies this
      ensures tx == old(tx) && State() == AfterReceive(old(State()), rx, testLoops)
    {
      running := CompareFrame(tx[recvPos], rx, running);
      loops := loops + 1;
      if testLoops > 0 && loops >= testLoops {
        done := true;
        return;
      }
      recvPos := recvPos + 1;
      if recvPos == CAN_MSG_COUNT {
        recvPos := 0;
      }
      unprocessed := unprocessed - 1;
    }
  }

  // ------------------------------------------------------------- the protocol

  /** Both processes and the frames between them; held is the frame inside the device's loop body. */
  datatype World = World(gen: Gen, toDut: seq<Frame>, held: seq<Frame>, fromDut: seq<Frame>)

  function Start(tx: seq<Frame>): Gen {
    Gen(tx, 0, 0, 0, 0, 0, true, false)
  }

  datatype Action = GenSend | GenReceive | DutReceive | DutSend

  predicate ValidFrames(fs: seq<Frame>) {
    forall i :: 0 <= i < |fs| ==> fs[i].Valid()
  }

  predicate Sensible(w: World) {
    w.gen.Valid() && ValidFrames(w.toDut) && ValidFrames(w.held) && ValidFrames(w.fromDut)
  }

  predicate Enabled(w: World, a: Action) {
    match a
    case GenSend => w.gen.Active() && w.gen.unprocessed < CAN_MSG_COUNT
    case GenReceive => w.gen.Active() && w.gen.unprocessed == CAN_MSG_COUNT && w.fromDut != []
    case DutReceive => w.held == [] && w.toDut != []
    case DutSend => w.held != []
  }

  function Step(w: World, a: Action, testLoops: nat): World
    requires Sensible(w) && Enabled(w, a)
  {
    match a
    case GenSend => w.(gen := AfterSend(w.gen), toDut := w.toDut + [Sent(w.gen.counter)])
    case GenReceive => w.(gen := AfterReceive(w.gen, w.fromDut[0], testLoops), fromDut := w.fromDut[1..])
    case DutReceive => w.(held := [Echo(w.toDut[0])], toDut := w.toDut[1..])
    case DutSend => w.(fromDut := w.fromDut + [w.held[0]], held := w.held[1..])
  }

  function EchoAll(fs: seq<Frame>): (r: seq<Frame>)
    requires ValidFrames(fs)
    ensures |r| == |fs|
    ensures forall i :: 0 <= i < |fs| ==> r[i] == Echo(fs[i])
  {
    seq(|fs|, i requires 0 <= i < |fs| => Echo(fs[i]))
  }

  /** The echoes still to arrive, in order. */
  function InFlight(w: World): seq<Frame>
    requires Sensible(w)
  {
    w.fromDut + w.held + EchoAll(w.toDut)
  }

  /** The ring from recv_pos on, n entries. */
  function Ring(g: Gen, n: nat): (r: seq<Frame>)
    requires g.Valid()
    ensures |r| == n
  {
    seq(n, i requires 0 <= i < n => g.tx[(g.recvPos + i) % CAN_MSG_COUNT])
  }

  /** Frames already compared but not yet taken off the ring: one, after the final break. */
  function Taken(g: Gen): nat {
    if g.done then 1 else 0
  }

  /** While no mismatch was seen, the echoes in flight are the ring segment of length unprocessed. */
  ghost predicate Inv(w: World) {
    && Sensible(w)
    && w.gen.sendPos == (w.gen.recvPos + w.gen.unprocessed) % CAN_MSG_COUNT
    && |w.held| <= 1
    && w.gen.running
    && (w.gen.done ==> w.gen.unprocessed == CAN_MSG_COUNT)
    && InFlight(w) == Ring(w.gen, w.gen.unprocessed)[Taken(w.gen)..]
  }

  lemma InitInv(tx: seq<Frame>)
    requires Start(tx).Valid()
    ensures Inv(World(Start(tx), [], [], []))
  {
  }

  /** Sending overwrites a slot outside the segment and extends the segment by it. */
  lemma SendExtendsRing(g: Gen)
    requires g.Valid() && g.unprocessed < CAN_MSG_COUNT
    requires g.sendPos == (g.recvPos + g.unprocessed) % CAN_MSG_COUNT
    ensures AfterSend(g).Valid()
    ensures AfterSend(g).sendPos == (g.recvPos + g.unprocessed + 1) % CAN_MSG_COUNT
    ensures Ring(AfterSend(g), g.unprocessed + 1) == Ring(g, g.unprocessed) + [Echo(Sent(g.counter))]
  {
    var g', n := AfterSend(g), g.unprocessed;
    var extended := Ring(g, n) + [Echo(Sent(g.counter))];
    forall i | 0 <= i < n + 1
      ensures Ring(g', n + 1)[i] == extended[i]
    {
      if i < n {
        assert (g.recvPos + i) % CAN_MSG_COUNT != g.sendPos;
      }
    }
  }

  /** Moving recv_pos on drops the first entry of the segment. */
  lemma ReceiveDropsHead(g: Gen, n: nat)
    requires g.Valid() && 0 < n
    ensures var g' := g.(recvPos := NextPos(g.recvPos)); g'.Valid() && Ring(g', n - 1) == Ring(g, n)[1..]
  {
    var g' := g.(recvPos := NextPos(g.recvPos));
    forall i | 0 <= i < n - 1
      ensures Ring(g', n - 1)[i] == Ring(g, n)[1..][i]
    {
      assert (NextPos(g.recvPos) + i) % CAN_MSG_COUNT == (g.recvPos + (i + 1)) % CAN_MSG_COUNT;
    }
  }

  lemma MatchesSelf(f: Frame)
    requires f.Valid()
    ensures Matches(f, f)
  {
  }

  lemma {:induction false} SendInv(w: World, testLoops: nat)
    requires Inv(w) && Enabled(w, GenSend)
    ensures Inv(Step(w, GenSend, testLoops))
  {
    var w', f := Step(w, GenSend, testLoops), Sent(w.gen.counter);
    SendExtendsRing(w.gen);
    assert EchoAll(w'.toDut) == EchoAll(w.toDut) + [Echo(f)];
    assert InFlight(w') == InFlight(w) + [Echo(f)];
  }

  /** The frame received is the ring entry at recv_pos, so compare_frame accepts it. */
  lemma {:induction false} ReceiveInv(w: World, testLoops: nat)
    requires Inv(w) && Enabled(w, GenReceive)
    ensures Inv(Step(w, GenReceive, testLoops))
  {
    var g, w' := w.gen, Step(w, GenReceive, testLoops);
    assert Ring(g, g.unprocessed)[0] == g.tx[g.recvPos % CAN_MSG_COUNT];
    assert InFlight(w)[0] == w.fromDut[0];
    MatchesSelf(w.fromDut[0]);
    assert InFlight(w') == InFlight(w)[1..];
    if w'.gen.done {
      assert Ring(w'.gen, g.unprocessed) == Ring(g, g.unprocessed);
    } else {
      ReceiveDropsHead(g, g.unprocessed);
      assert Ring(w'.gen, g.unprocessed - 1) == Ring(g.(recvPos := NextPos(g.recvPos)), g.unprocessed - 1);
    }
  }

  lemma EchoAllHead(fs: seq<Frame>)
    requires ValidFrames(fs) && fs != []
    ensures ValidFrames(fs[1..]) && EchoAll(fs) == [Echo(fs[0])] + EchoAll(fs[1..])
  {
  }

  /** The device swaps a frame for its echo, which is what the segment already holds. */
  lemma {:induction false} DutReceiveInFlight(w: World, testLoops: nat)
    requires Sensible(w) && Enabled(w, DutReceive)
    ensures Sensible(Step(w, DutReceive, testLoops))
    ensures InFlight(Step(w, DutReceive, testLoops)) == InFlight(w)
  {
    EchoAllHead(w.toDut);
    var first, rest := [Echo(w.toDut[0])], EchoAll(w.toDut[1..]);
    assert w.fromDut + [] == w.fromDut;
    assert (w.fromDut + first) + rest == w.fromDut + (first + rest);
  }

  lemma {:induction false} DutReceiveInv(w: World, testLoops: nat)
    requires Inv(w) && Enabled(w, DutReceive)
    ensures Inv(Step(w, DutReceive, testLoops))
  {
    DutReceiveInFlight(w, testLoops);
    assert Step(w, DutReceive, testLoops).gen == w.gen;
  }

  lemma {:induction false} DutSendInv(w: World, testLoops: nat)
    requires Inv(w) && Enabled(w, DutSend)
    ensures Inv(Step(w, DutSend, testLoops))
  {
    var w' := Step(w, DutSend, testLoops);
    assert w.held == [w.held[0]] && w'.held == [];
    assert InFlight(w') == InFlight(w);
  }

  /** Every step keeps the invariant: in particular compare_frame never finds a mismatch. */
  lemma StepInv(w: World, a: Action, testLoops: nat)
    requires Inv(w) && Enabled(w, a)
    ensures Inv(Step(w, a, testLoops))
  {
    match a
    case GenSend => SendInv(w, testLoops);
    case GenReceive => ReceiveInv(w, testLoops);
    case DutReceive => DutReceiveInv(w, testLoops);
    case DutSend => DutSendInv(w, testLoops);
  }

  /** A run: any interleaving of enabled steps. */
  ghost predicate IsRun(run: seq<World>, acts: seq<Action>, testLoops: nat) {
    && |run| == |acts| + 1
    && run[0].gen == Start(run[0].gen.tx) && run[0].gen.Valid()
    && run[0].toDut == [] && run[0].held == [] && run[0].fromDut == []
    && forall i :: 0 <= i < |acts| ==>
         Sensible(run[i]) && Enabled(run[i], acts[i]) && run[i + 1] == Step(run[i], acts[i], testLoops)
  }

  /** How often a frame in this world has already been handled. */
  function Progress(w: World): nat {
    4 * w.gen.loops + 3 * |w.fromDut| + 2 * |w.held| + |w.toDut|
  }

  lemma StepProgress(w: World, a: Action, testLoops: nat)
    requires Sensible(w) && Enabled(w, a) && |w.held| <= 1
    ensures Progress(Step(w, a, testLoops)) == Progress(w) + 1
  {
  }

  /** In every state of every run the invariant holds and each step was accounted for. */
  lemma {:induction false} RunInv(run: seq<World>, acts: seq<Action>, testLoops: nat, n: nat)
    requires IsRun(run, acts, testLoops) && n < |run|
    ensures Inv(run[n]) && Progress(run[n]) == n
  {
    if n == 0 {
      var first := run[0];
      InitInv(first.gen.tx);
      assert first == World(Start(first.gen.tx), [], [], []);
    } else {
      var w, a := run[n - 1], acts[n - 1];
      RunInv(run, acts, testLoops, n - 1);
      StepInv(w, a, testLoops);
      StepProgress(w, a, testLoops);
      assert run[n - 1 + 1] == Step(w, a, testLoops);
    }
  }

  /** Safety: no mismatch is ever reported, and at most 50 frames are outstanding. */
  lemma EchoSafety(run: seq<World>, acts: seq<Action>, testLoops: nat, n: nat)
    requires IsRun(run, acts, testLoops) && n < |run|
    ensures Sensible(run[n]) && run[n].gen.running
    ensures |run[n].fromDut| + |run[n].held| + |run[n].toDut| == run[n].gen.unprocessed - Taken(run[n].gen)
    ensures |InFlight(run[n])| <= CAN_MSG_COUNT
  {
    RunInv(run, acts, testLoops, n);
  }

  /** No deadlock: until the generator has finished its loops, some step is possible. */
  lemma EchoNoDeadlock(run: seq<World>, acts: seq<Action>, testLoops: nat, n: nat)
    requires IsRun(run, acts, testLoops) && n < |run|
    ensures run[n].gen.done || exists a: Action :: Enabled(run[n], a)
  {
    RunInv(run, acts, testLoops, n);
    var w := run[n];
    if !w.gen.done {
      if w.gen.unprocessed < CAN_MSG_COUNT {
        assert Enabled(w, GenSend);
      } else if w.fromDut != [] {
        assert Enabled(w, GenReceive);
      } else if w.held != [] {
        assert Enabled(w, DutSend);
      } else {
        assert Enabled(w, DutReceive);
      }
    }
  }

  /** Liveness: whatever the interleaving, n steps complete at least (n - 150) / 4 round trips. */
  lemma EchoProgress(run: seq<World>, acts: seq<Action>, testLoops: nat, n: nat)
    requires IsRun(run, acts, testLoops) && n < |run|
    ensures n <= 4 * run[n].gen.loops + 3 * CAN_MSG_COUNT
  {
    RunInv(run, acts, testLoops, n);
    assert |InFlight(run[n])| == |run[n].fromDut| + |run[n].held| + |run[n].toDut|;
  }
}
