/** dhd_sdio.c: the transmit credit window, two 8-bit counters compared modulo 256. */
module SdioCredit {
  import opened Arith

  const SDPCM_SEQUENCE_WRAP: nat := 256

  type Seq8 = x: int | 0 <= x < 256

  // The difference of the counters as the C cast to uint8 gives it.
  function Window(txMax: Seq8, txSeq: Seq8): (w: Seq8) {
    (txMax - txSeq) % 256
  }

  // A header's limit is believed only within 0x70 of the next sequence number.
  function Believed(txMax: Seq8, txSeq: Seq8, header: Seq8): (m: Seq8) {
    if Window(header, txSeq) > 0x70 then txMax else header
  }

  // The sequence numbers of n frames sent from s on.
  function Numbers(s: int, n: nat): (f: seq<Seq8>) {
    seq(n, k requires 0 <= k < n => (s + k) % 256)
  }

  lemma NumbersJoin(s: int, m: nat, n: nat)
    ensures Numbers(s, m) + Numbers(s + m, n) == Numbers(s, m + n)
  {
  }

  lemma NumbersNone(s: int)
    ensures Numbers(s, 0) == []
  {
  }

  lemma NumbersNext(s: int, c: Seq8, n: nat)
    requires c == s % 256
    ensures (c + n) % 256 == (s + n) % 256
    ensures |Numbers(s, n)| == n && Numbers(s, n) + [(s + n) % 256] == Numbers(s, n + 1)
  {
  }

  // 8-bit counters of unbounded ones.
  lemma WindowExact(granted: int, sent: int)
    requires 0 <= granted - sent < 256
    ensures Window(granted % 256, sent % 256) == granted - sent
  {
    var d := granted % 256 - sent % 256;
    var k := granted / 256 - sent / 256;
    assert d == granted - sent - 256 * k;
    if k == 0 {
      assert d % 256 == granted - sent;
    } else {
      assert k == 1;
    }
  }

  class Bus {
    var tx_seq: Seq8
    var tx_max: Seq8
    var txglom_enable: bool
    var txglomsize: nat
    const chain_max: nat
    var ctrl_frame_stat: bool
    var txcnt_timeout: nat

    // All frames sent and all frames allowed since the counters were last reset.
    ghost var sent: int
    ghost var granted: int

    // The counters are those numbers modulo 256, and what is allowed is never behind
    // what was sent nor far ahead of it.
    ghost predicate Valid()
      reads this
    {
      tx_seq == sent % 256 && tx_max == granted % 256 && 0 <= granted - sent <= 0x70
    }

    constructor (glom: bool, glomsize: nat, chainMax: nat)
      ensures Valid() && sent == 255 && granted == 256
    {
      tx_seq, tx_max := SDPCM_SEQUENCE_WRAP - 1, 0;
      txglom_enable, txglomsize, ctrl_frame_stat, chain_max, txcnt_timeout := glom, glomsize, false, chainMax, 0;
      sent, granted := 255, 256;
    }

    predicate DataOk()
      reads this
    {
      Window(tx_max, tx_seq) > 1 && Window(tx_max, tx_seq) < 0x80
    }

    predicate TxCtlOk()
      reads this
    {
      Window(tx_max, tx_seq) != 0 && Window(tx_max, tx_seq) < 0x80
    }

    // The guards read the true credit.
    lemma GuardsExact()
      requires Valid()
      ensures Window(tx_max, tx_seq) == granted - sent
      ensures DataOk() <==> granted - sent > 1
      ensures TxCtlOk() <==> granted - sent > 0
    {
      WindowExact(granted, sent);
    }

    // dhdsdio_txpkt: a chain of frames is sent whole or not at all.
    method TxPkt(num_pkt: nat, ok: bool) returns (frames: seq<Seq8>)
      requires Valid() && num_pkt <= granted - sent
      modifies this`tx_seq, this`sent
      ensures Valid() && sent == old(sent) + |frames|
      ensures frames == if ok then Numbers(old(sent), num_pkt) else []
    {
      hide Numbers;
      NumbersNone(sent);
      frames := [];
      if ok {
        var i := 0;
        while i < num_pkt
          invariant 0 <= i <= num_pkt && frames == Numbers(sent, i)
          invariant Valid() && tx_seq == old(tx_seq) && sent == old(sent)
        {
          NumbersNext(sent, tx_seq, i);
          frames := frames + [(tx_seq + i) % SDPCM_SEQUENCE_WRAP];
          i := i + 1;
        }
        NumbersNext(sent, tx_seq, num_pkt);
        tx_seq := (tx_seq + num_pkt) % SDPCM_SEQUENCE_WRAP;
        sent := sent + num_pkt;
      }
    }

    // How many queued packets one chain takes.
    function ChainLength(queued: nat): (n: nat)
      requires DataOk()
      reads this
      ensures n < Window(tx_max, tx_seq) && n <= queued
      ensures queued > 0 && (txglom_enable ==> txglomsize > 0 && chain_max > 0) ==> n > 0
    {
      var one := if txglom_enable then Min(Min(Window(tx_max, tx_seq) - 1, txglomsize), chain_max) else 1;
      Min(one, queued)
    }

    // When a chain is empty, and how long it can be.
    lemma ChainNothing(queued: nat, n: nat)
      requires DataOk() && n == ChainLength(queued)
      ensures n == 0 ==> queued == 0 || (txglom_enable && (txglomsize == 0 || chain_max == 0))
      ensures n <= 1 || (txglom_enable && n <= Min(txglomsize, chain_max))
    {
    }

    // dhdsdio_sendfromq: sends queued data until the limit, the queue or the credit ends.
    // The last credit is never spent; results says which chains the bus accepts. It stops for
    // one of these reasons only, and without glomming it takes no packet beyond maxframes.
    method SendFromQ(maxframes: nat, queued: nat, results: nat -> bool) returns (cnt: nat, left: nat, frames: seq<Seq8>)
      requires Valid()
      modifies this`tx_seq, this`sent
      ensures Valid() && sent == old(sent) + |frames| && frames == Numbers(old(sent), |frames|)
      ensures granted - sent >= Min(old(granted - sent), 1)
      ensures cnt + left == queued && |frames| <= cnt
      ensures cnt >= maxframes || left == 0 || granted - sent <= 1 || (txglom_enable && (txglomsize == 0 || chain_max == 0))
      ensures cnt <= maxframes || (txglom_enable && cnt < maxframes + Min(txglomsize, chain_max))
      ensures (forall k: nat :: results(k)) ==> |frames| == cnt
      ensures (forall k: nat :: !results(k)) ==> frames == []
    {
      cnt, left, frames := 0, queued, [];
      var round := 0;
      GuardsExact();
      while cnt < maxframes && DataOk()
        invariant Valid() && sent == old(sent) + |frames| && frames == Numbers(old(sent), |frames|)
        invariant granted - sent >= Min(old(granted - sent), 1)
        invariant cnt + left == queued && |frames| <= cnt
        invariant cnt <= maxframes || (txglom_enable && cnt < maxframes + Min(txglomsize, chain_max))
        invariant (forall k: nat :: results(k)) ==> |frames| == cnt
        invariant (forall k: nat :: !results(k)) ==> frames == []
        decreases left
      {
        GuardsExact();
        var num_pkt := ChainLength(left);
        ChainNothing(left, num_pkt);
        if num_pkt == 0 {
          break;
        }
        var chain := TxPkt(num_pkt, results(round));
        NumbersJoin(old(sent), |frames|, |chain|);
        frames := frames + chain;
        cnt, left, round := cnt + num_pkt, left - num_pkt, round + 1;
      }
      GuardsExact();
    }

    // dhd_bus_txctl: with credit the frame is sent at once; without, it is left to the DPC,
    // and TxCtlAwaited is what follows the wait.
    method TxCtl(ok: bool) returns (frames: seq<Seq8>)
      requires Valid()
      modifies this`tx_seq, this`sent, this`ctrl_frame_stat, this`txcnt_timeout
      ensures Valid() && frames == Numbers(old(sent), |frames|) && sent == old(sent) + |frames|
      ensures |frames| == (if old(granted - sent) > 0 && ok then 1 else 0)
      ensures ctrl_frame_stat <==> old(granted - sent) == 0
      ensures txcnt_timeout == if old(granted - sent) > 0 then 0 else old(txcnt_timeout)
    {
      GuardsExact();
      frames := [];
      if !TxCtlOk() {
        ctrl_frame_stat := true;
        return;
      }
      txcnt_timeout := 0;
      ctrl_frame_stat := true;
      frames := TxPkt(1, ok);
      ctrl_frame_stat := false;
    }

    // After the wait: the frame is out if the DPC took it. If not, it is withdrawn, so that
    // the DPC cannot send it later.
    method TxCtlAwaited() returns (done: bool)
      requires Valid()
      modifies this`ctrl_frame_stat, this`txcnt_timeout
      ensures Valid() && done == !old(ctrl_frame_stat) && !ctrl_frame_stat
      ensures txcnt_timeout == if done then 0 else old(txcnt_timeout) + 1
    {
      done := !ctrl_frame_stat;
      if done {
        txcnt_timeout := 0;
        ctrl_frame_stat := true;
      } else {
        txcnt_timeout := txcnt_timeout + 1;
      }
      ctrl_frame_stat := false;
    }

    // The DPC's turn: a waiting control frame goes first, whether or not it gets through.
    method SendPendCtl(ok: bool) returns (frames: seq<Seq8>)
      requires Valid()
      modifies this`tx_seq, this`sent, this`ctrl_frame_stat
      ensures Valid() && frames == Numbers(old(sent), |frames|) && sent == old(sent) + |frames|
      ensures |frames| == (if old(granted - sent) > 0 && old(ctrl_frame_stat) && ok then 1 else 0)
      ensures ctrl_frame_stat <==> old(ctrl_frame_stat) && old(granted - sent) == 0
    {
      GuardsExact();
      frames := [];
      if TxCtlOk() && ctrl_frame_stat {
        frames := TxPkt(1, ok);
        ctrl_frame_stat := false;
      }
    }

    // The limit in a received header, of a frame, a next frame or a superframe.
    method RxHeader(txmax: Seq8)
      requires Valid()
      modifies this`tx_max, this`granted
      ensures Valid() && tx_max == Believed(old(tx_max), tx_seq, txmax)
      ensures granted == if (txmax - sent) % 256 > 0x70 then old(granted) else sent + (txmax - sent) % 256
    {
      ShiftWindow(txmax, sent);
      var limit := txmax;
      if Window(txmax, tx_seq) > 0x70 {
        limit := tx_max;
      } else {
        granted := sent + (txmax - sent) % 256;
      }
      tx_max := limit;
    }

    // dhd_bus_stop forgets the numbering.
    method Stop()
      modifies this`tx_seq, this`tx_max, this`sent, this`granted
      ensures Valid() && sent == 0 && granted == 4
    {
      tx_seq, tx_max, sent, granted := 0, 4, 0, 4;
    }
  }

  lemma ShiftWindow(txmax: Seq8, sent: int)
    ensures Window(txmax, sent % 256) == (txmax - sent) % 256
    ensures (sent + (txmax - sent) % 256) % 256 == txmax
  {
    var q := sent / 256;
    assert txmax - sent % 256 == txmax - sent + 256 * q;
    assert (txmax - sent + 256 * q) % 256 == (txmax - sent) % 256;
  }

  // ----- against a dongle -----

  // The dongle has promised buffers for offered frames in all; each header in flight
  // carries such a promise modulo 256.
  datatype World = World(sent: int, granted: int, offered: int, flying: seq<int>)

  ghost predicate Rising(s: seq<int>) {
    forall i, j :: 0 <= i <= j < |s| ==> s[i] <= s[j]
  }

  ghost predicate Safe(w: World) {
    && w.sent <= w.granted <= w.offered <= w.sent + 0x70
    && Rising(w.flying)
    && (forall k :: 0 <= k < |w.flying| ==> w.granted <= w.flying[k] <= w.offered)
  }

  datatype Event = Send(n: nat) | Offer(more: nat, received: int) | Deliver | Restart

  // Sends stay within what the host believes, offers within 0x70 of what the dongle has
  // received, and headers arrive in order. A restart forgets them and starts both sides
  // with four buffers.
  ghost predicate Possible(w: World, e: Event) {
    match e
    case Send(n) => n <= w.granted - w.sent
    case Offer(more, received) => received <= w.sent && w.offered + more <= received + 0x70
    case Deliver => w.flying != []
    case Restart => true
  }

  function Grant(granted: int, sent: int, header: Seq8): (g: int) {
    if (header - sent) % 256 > 0x70 then granted else sent + (header - sent) % 256
  }

  function Next(w: World, e: Event): (v: World)
    requires e.Deliver? ==> w.flying != []
  {
    match e
    case Send(n) => w.(sent := w.sent + n)
    case Offer(more, received) => w.(offered := w.offered + more, flying := w.flying + [w.offered + more])
    case Deliver => w.(granted := Grant(w.granted, w.sent, w.flying[0] % 256), flying := w.flying[1..])
    case Restart => World(0, 4, 4, [])
  }

  // Eight bits are enough: the host recovers the promise behind every header.
  lemma HeaderExact(w: World)
    requires Safe(w) && w.flying != []
    ensures Grant(w.granted, w.sent, w.flying[0] % 256) == w.flying[0]
  {
    var d := w.flying[0];
    WindowExact(d, w.sent);
    ShiftWindow(d % 256, w.sent);
    assert w.sent <= w.granted <= d;
  }

  lemma NextSafe(w: World, e: Event)
    requires Safe(w) && Possible(w, e)
    ensures Safe(Next(w, e))
  {
    match e
    case Send(n) =>
    case Offer(more, received) =>
    case Deliver =>
      HeaderExact(w);
    case Restart =>
  }

  function Play(w: World, events: seq<Event>): (v: World)
    requires Plays(w, events)
    decreases |events|
  {
    if events == [] then w else Play(Next(w, events[0]), events[1..])
  }

  ghost predicate Plays(w: World, events: seq<Event>)
    decreases |events|
  {
    events == [] || (Possible(w, events[0]) && Plays(Next(w, events[0]), events[1..]))
  }

  // However sends, offers and headers interleave, the host never sends more frames than
  // the dongle has promised buffers for.
  lemma {:induction false} NeverOverruns(w: World, events: seq<Event>)
    requires Safe(w) && Plays(w, events)
    ensures Safe(Play(w, events)) && Play(w, events).sent <= Play(w, events).offered
    decreases |events|
  {
    if events != [] {
      NextSafe(w, events[0]);
      NeverOverruns(Next(w, events[0]), events[1..]);
    }
  }

  lemma {:induction false} PlayMore(w: World, events: seq<Event>, e: Event)
    requires Plays(w, events) && Possible(Play(w, events), e)
    ensures Plays(w, events + [e]) && Play(w, events + [e]) == Next(Play(w, events), e)
    decreases |events|
  {
    var more := events + [e];
    if events == [] {
      assert more[0] == e && more[1..] == [];
    } else {
      PlayMore(Next(w, events[0]), events[1..], e);
      assert more[0] == events[0] && more[1..] == events[1..] + [e];
    }
  }

  // What the driver does with its bus, and what the dongle does meanwhile. results and ok say
  // which transfers the bus accepts.
  datatype Step =
    | Data(maxframes: nat, queued: nat, results: nat -> bool)
    | Control(ok: bool)
    | Awaited
    | Pending(ok: bool)
    | Promise(more: nat, received: int)
    | Header
    | Stopped

  // The counters of a bus, and the side of the dongle.
  ghost predicate Watches(w: World, sent: int, granted: int) {
    w.sent == sent && w.granted == granted
  }

  // One step is one event, or none: a promise beyond the dongle's buffers is not made, and
  // without a header in flight none arrives.
  method Act(bus: Bus, step: Step, w: World) returns (events: seq<Event>)
    requires bus.Valid() && Safe(w) && Watches(w, bus.sent, bus.granted)
    modifies bus`tx_seq, bus`tx_max, bus`ctrl_frame_stat, bus`txcnt_timeout, bus`sent, bus`granted
    ensures bus.Valid() && |events| <= 1 && Plays(w, events)
    ensures Safe(Play(w, events)) && Watches(Play(w, events), bus.sent, bus.granted)
    ensures step.Data? ==> bus.granted - bus.sent >= Min(old(bus.granted - bus.sent), 1)
  {
    hide Rising, Numbers;
    events := [];
    match step {
      case Data(maxframes, queued, results) =>
        var _, _, frames := bus.SendFromQ(maxframes, queued, results);
        events := [Send(|frames|)];
      case Control(ok) =>
        var frames := bus.TxCtl(ok);
        events := [Send(|frames|)];
      case Awaited =>
        var _ := bus.TxCtlAwaited();
      case Pending(ok) =>
        var frames := bus.SendPendCtl(ok);
        events := [Send(|frames|)];
      case Promise(more, received) =>
        if received <= w.sent && w.offered + more <= received + 0x70 {
          events := [Offer(more, received)];
        }
      case Header =>
        if w.flying != [] {
          bus.RxHeader(w.flying[0] % 256);
          events := [Deliver];
        }
      case Stopped =>
        bus.Stop();
        events := [Restart];
    }
    if events != [] {
      PlayMore(w, [], events[0]);
      assert [] + events == events == [events[0]];
      NextSafe(w, events[0]);
    }
  }

  // Every run of the driver is a run of events, so the host stays within what the dongle
  // promised over any interleaving of data, control frames, headers and restarts.
  method Run(bus: Bus, steps: seq<Step>, start: World) returns (events: seq<Event>, w: World)
    requires bus.Valid() && Safe(start) && Watches(start, bus.sent, bus.granted)
    modifies bus`tx_seq, bus`tx_max, bus`ctrl_frame_stat, bus`txcnt_timeout, bus`sent, bus`granted
    ensures bus.Valid() && Plays(start, events) && w == Play(start, events)
    ensures Safe(w) && Watches(w, bus.sent, bus.granted) && bus.sent <= bus.granted <= w.offered
  {
    hide Rising, Play, Plays;
    events, w := [], start;
    PlayNothing(start);
    var i := 0;
    while i < |steps|
      invariant 0 <= i <= |steps| && bus.Valid() && Safe(w) && Watches(w, bus.sent, bus.granted)
      invariant Plays(start, events) && w == Play(start, events)
    {
      var more := Act(bus, steps[i], w);
      PlayOn(start, events, w, more);
      events, w := events + more, Play(w, more);
      i := i + 1;
    }
  }

  lemma PlayNothing(w: World)
    ensures Plays(w, []) && Play(w, []) == w
  {
  }

  lemma PlayOn(start: World, events: seq<Event>, w: World, more: seq<Event>)
    requires Plays(start, events) && w == Play(start, events) && |more| <= 1 && Plays(w, more)
    ensures Plays(start, events + more) && Play(start, events + more) == Play(w, more)
  {
    if more == [] {
      assert events + more == events;
    } else {
      PlayMore(start, events, more[0]);
      assert more == [more[0]] && more[1..] == [];
    }
  }
}
