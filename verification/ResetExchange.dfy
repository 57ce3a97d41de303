/** Two instances of the refactored stack that send each other's resets back and forth, each
    arriving as it was sent: first on parsed segments, checksums apart, and then on bytes. */
module ResetExchange {
  import opened Words
  import opened TcbValues
  import opened ConnMachine
  import S = Segments
  import opened Ipv4
  import opened SynAckSegment
  import opened RstSegment
  import opened RstChecksum
  import N = Network

  /** What one delivery leaves open: the data bytes announced, the ISS the generator would give,
      and what is in unassigned locals. */
  datatype Round = Round(length: int, iss: u32, junk: Unassigned)

  /** The reset for `seg` as the other side parses it. */
  function ResetSeen(seg: Segment, r: Round): Segment {
    var n := ResetNumbers(seg, r.length, r.junk);
    Segment(Reverse(seg.id), n.seqNum, n.ackNum, S.FlagsOf(n.flags), 0)
  }

  /** How many resets are sent before the exchange ends, `seg` being about to arrive at the instance
      with table `here`, or before `rounds` are over. */
  function Resets(here: Table, there: Table, seg: Segment, rounds: seq<Round>): nat
    decreases |rounds|
  {
    if rounds == [] then 0
    else
      var o := Step(here, Input(seg, rounds[0].iss, true));
      if o.reply != Reset then 0 else 1 + Resets(there, o.table, ResetSeen(seg, rounds[0]), rounds[1..])
  }

  /** Between ports that are not the listening one, every segment is answered with a reset, and that
      again: the exchange outlasts any number of rounds, whatever the tables and the locals hold. */
  lemma {:induction false} ResetsNeverEnd(here: Table, there: Table, seg: Segment, rounds: seq<Round>)
    requires seg.id.srcPort != LISTEN_PORT && seg.id.dstPort != LISTEN_PORT
    requires forall id :: id in here ==> here[id].id == id
    requires forall id :: id in there ==> there[id].id == id
    ensures Resets(here, there, seg, rounds) == |rounds|
    decreases |rounds|
  {
    if rounds != [] {
      var o := Step(here, Input(seg, rounds[0].iss, true));
      ResetsNeverEnd(there, o.table, ResetSeen(seg, rounds[0]), rounds[1..]);
    }
  }

  /** An exchange that begins with a reset, the locals holding that flag, outlasts two rounds
      exactly if neither port is the listening one. */
  lemma ResetsEndIff(here: Table, there: Table, seg: Segment, rounds: seq<Round>)
    requires seg.flags.rst && |rounds| >= 2 && S.FlagsOf(rounds[0].junk.flags).rst
    requires forall id :: id in here ==> here[id].id == id
    requires forall id :: id in there ==> there[id].id == id
    ensures Resets(here, there, seg, rounds) == |rounds| <==> seg.id.srcPort != LISTEN_PORT && seg.id.dstPort != LISTEN_PORT
  {
    if seg.id.srcPort != LISTEN_PORT && seg.id.dstPort != LISTEN_PORT {
      ResetsNeverEnd(here, there, seg, rounds);
    } else if seg.id.dstPort == LISTEN_PORT {
      ListenerEnds(here, there, seg, rounds);
    } else {
      SeenIsReset(seg, rounds[0]);
      ListenerEnds(there, Step(here, Input(seg, rounds[0].iss, true)).table, ResetSeen(seg, rounds[0]), rounds[1..]);
    }
  }

  lemma SeenIsReset(seg: Segment, r: Round)
    requires S.FlagsOf(r.junk.flags).rst
    ensures ResetSeen(seg, r).flags.rst && ResetSeen(seg, r).id == Reverse(seg.id)
  {
  }

  lemma ListenerEnds(here: Table, there: Table, seg: Segment, rounds: seq<Round>)
    requires seg.flags.rst && seg.id.dstPort == LISTEN_PORT && forall id :: id in here ==> here[id].id == id
    requires rounds != []
    ensures Resets(here, there, seg, rounds) == 0
  {
    NoResetAtListener(here, seg, rounds[0]);
  }

  lemma NoResetAtListener(t: Table, seg: Segment, r: Round)
    requires seg.flags.rst && seg.id.dstPort == LISTEN_PORT && forall id :: id in t ==> t[id].id == id
    ensures Step(t, Input(seg, r.iss, true)).reply == NoReply
  {
  }

  // ------------------------------------------------------------------ the same on bytes

  /** What one delivery of bytes leaves open. */
  datatype Wire = Wire(iss: u32, junk: Unassigned)

  function HeaderOf(p: seq<byte>): seq<byte>
    requires N.IsTcp(p)
  {
    p[..Ihl(p[0])]
  }

  function SegmentOf(p: seq<byte>): seq<byte>
    requires N.IsTcp(p)
  {
    p[Ihl(p[0])..]
  }

  /** The numbers and flags in the reset for packet `p`. */
  function NumbersFor(p: seq<byte>, w: Wire): Unassigned
    requires N.IsTcp(p) && N.Fits(p)
  {
    ResetNumbers(S.Parse(HeaderOf(p), SegmentOf(p)), Announced(HeaderOf(p), SegmentOf(p)), w.junk)
  }

  function ResetTo(p: seq<byte>, w: Wire): seq<byte>
    requires N.IsTcp(p) && N.Fits(p)
  {
    ResetPacket(HeaderOf(p), SegmentOf(p), w.junk)
  }

  /** The reset for `p` keeps checksums that happen to be right. */
  predicate Passes(p: seq<byte>, w: Wire)
    requires N.IsTcp(p) && N.Fits(p)
  {
    Announced(HeaderOf(p), SegmentOf(p)) == 0 && Surplus(SegmentOf(p), NumbersFor(p, w)) % 0xFFFF == 0
  }

  /** Neither end uses the listening port. */
  predicate Elsewhere(p: seq<byte>)
    requires N.IsTcp(p) && N.Fits(p)
  {
    var id := S.Parse(HeaderOf(p), SegmentOf(p)).id;
    id.srcPort != LISTEN_PORT && id.dstPort != LISTEN_PORT
  }

  /** The parts of a reset, as its receiver takes it apart. */
  lemma ResetParts(p: seq<byte>, w: Wire)
    requires N.IsTcp(p) && N.Fits(p)
    ensures var q, h, s := ResetTo(p, w), HeaderOf(p), SegmentOf(p);
            && |q| >= 20 && q[0] == p[0] && q[9] == p[9]
            && q[..Ihl(q[0])] == ResetIp(h, s) && q[Ihl(q[0])..] == ResetTcp(s, NumbersFor(p, w))
            && HeadersFit(ResetIp(h, s), ResetTcp(s, NumbersFor(p, w)))
            && Announced(ResetIp(h, s), ResetTcp(s, NumbersFor(p, w))) == 0
  {
    var h, s := HeaderOf(p), SegmentOf(p);
    ResetIpBytes(h, s);
    ResetHeader(s, NumbersFor(p, w));
    SameOffset(s[12]);
  }

  lemma SameOffset(b: byte)
    ensures b / 0x10 * 0x10 / 0x10 == b / 0x10
  {
  }

  /** The reset for a packet that reached the machine reaches the machine of the other side exactly
      if the packet announced no data and what the reset overwrites weighs as much as before. */
  lemma ResetReachesIff(p: seq<byte>, w: Wire)
    requires N.Fits(p) && N.Reaches(p)
    ensures var q := ResetTo(p, w);
            N.Fits(q) && (N.Reaches(q) <==> Passes(p, w)) && (IpValid(q) ==> N.IsTcp(q))
    ensures var q := ResetTo(p, w);
            N.Reaches(q) ==> Announced(HeaderOf(q), SegmentOf(q)) == 0 && (Elsewhere(q) <==> Elsewhere(p))
  {
    var h, s := HeaderOf(p), SegmentOf(p);
    assert h + s == p;
    ResetParts(p, w);
    ResetValidIff(h, s, w.junk);
    ResetTcpValidIff(h, s, NumbersFor(p, w));
    ResetFields(h, s, NumbersFor(p, w));
  }

  predicate Tidy(t: Table) {
    forall id :: id in t ==> t[id].id == id
  }

  /** What an instance sends for a TCP packet that is not for the listening port, or for one that
      fails the IP test. */
  lemma SentFor(t: Table, p: seq<byte>, w: Wire)
    requires Tidy(t) && N.Fits(p) && (IpValid(p) ==> N.IsTcp(p)) && (N.Reaches(p) ==> Elsewhere(p))
    ensures var r := N.Demux(t, p, w.iss, true, w.junk);
            && Tidy(r.table)
            && if N.Reaches(p) then r.sent == ResetTo(p, w) && r.sent != [] else r.sent == []
  {
    if N.Reaches(p) {
      ResetParts(p, w);
    }
  }

  /** How many packets are sent before the exchange ends, `p` being about to arrive at the instance
      with table `here`, or before the deliveries are over. */
  function Bounces(here: Table, there: Table, p: seq<byte>, ws: seq<Wire>): nat
    decreases |ws|
  {
    if ws == [] || !N.Fits(p) then 0
    else
      var r := N.Demux(here, p, ws[0].iss, true, ws[0].junk);
      if r.sent == [] then 0 else 1 + Bounces(there, r.table, r.sent, ws[1..])
  }

  /** Each reset but the last keeps checksums that happen to be right. */
  predicate AllPass(p: seq<byte>, ws: seq<Wire>)
    requires N.IsTcp(p) && N.Fits(p)
    decreases |ws|
  {
    |ws| <= 1
    || (Passes(p, ws[0]) && N.Fits(ResetTo(p, ws[0])) && N.IsTcp(ResetTo(p, ws[0])) && AllPass(ResetTo(p, ws[0]), ws[1..]))
  }

  /** Between ports other than the listening one an exchange outlasts any given deliveries exactly if
      every reset but the last keeps checksums that happen to be right. */
  lemma {:induction false} BouncesIff(here: Table, there: Table, p: seq<byte>, ws: seq<Wire>)
    requires Tidy(here) && Tidy(there) && N.Fits(p) && N.Reaches(p) && Elsewhere(p)
    ensures Bounces(here, there, p, ws) == |ws| <==> AllPass(p, ws)
    decreases |ws|
  {
    if ws != [] {
      var q, r := ResetTo(p, ws[0]), N.Demux(here, p, ws[0].iss, true, ws[0].junk);
      SentFor(here, p, ws[0]);
      ResetReachesIff(p, ws[0]);
      assert Bounces(here, there, p, ws) == 1 + Bounces(there, r.table, q, ws[1..]);
      if N.Reaches(q) {
        BouncesIff(there, r.table, q, ws[1..]);
      } else {
        NotReached(there, r.table, q, ws[1..]);
      }
    }
  }

  lemma NotReached(here: Table, there: Table, p: seq<byte>, ws: seq<Wire>)
    requires Tidy(here) && N.Fits(p) && (IpValid(p) ==> N.IsTcp(p)) && !N.Reaches(p)
    ensures Bounces(here, there, p, ws) == 0
  {
    if ws != [] {
      SentFor(here, p, ws[0]);
    }
  }

  /** So the first reset ends the exchange if the packet announced data. */
  lemma DataEndsExchange(here: Table, there: Table, p: seq<byte>, ws: seq<Wire>)
    requires Tidy(here) && Tidy(there) && N.Fits(p) && N.Reaches(p) && Elsewhere(p) && ws != []
    requires Announced(HeaderOf(p), SegmentOf(p)) != 0
    ensures Bounces(here, there, p, ws) == 1
  {
    SentFor(here, p, ws[0]);
    ResetReachesIff(p, ws[0]);
    NotReached(there, N.Demux(here, p, ws[0].iss, true, ws[0].junk).table, ResetTo(p, ws[0]), ws[1..]);
  }

  // ------------------------------------------------------------------ the unassigned locals decide

  /** The locals that give the number left unassigned in the reset for `p` the value `x`. */
  function Filled(x: u16): Wire {
    Wire(0, Unassigned(x, x, 0))
  }

  /** One of two numbers set. */
  function WithNumber(n: Unassigned, ack: bool, x: u16): Unassigned {
    if ack then n.(ackNum := x) else n.(seqNum := x)
  }

  lemma FilledNumbers(seg: Segment, length: int, x: u16)
    ensures ResetNumbers(seg, length, Filled(x).junk) == WithNumber(ResetNumbers(seg, length, Filled(0).junk), seg.flags.ack, x)
  {
  }

  lemma NumberWeighs(s: seq<byte>, n: Unassigned, ack: bool, x: u16)
    requires |s| >= 20 && n == WithNumber(n, ack, 0)
    ensures NewWeight(s, WithNumber(n, ack, x)) == NewWeight(s, n) + x
  {
  }

  /** That number enters the weight as it is. */
  lemma FilledSurplus(p: seq<byte>, x: u16)
    requires N.IsTcp(p) && N.Fits(p)
    ensures Surplus(SegmentOf(p), NumbersFor(p, Filled(x))) == Surplus(SegmentOf(p), NumbersFor(p, Filled(0))) + x
  {
    var seg, length := S.Parse(HeaderOf(p), SegmentOf(p)), Announced(HeaderOf(p), SegmentOf(p));
    FilledNumbers(seg, length, 0);
    FilledNumbers(seg, length, x);
    NumberWeighs(SegmentOf(p), NumbersFor(p, Filled(0)), seg.flags.ack, x);
  }

  /** Some locals keep the checksum right and others do not, whatever the packet. */
  lemma EitherWay(p: seq<byte>) returns (right: Wire, wrong: Wire)
    requires N.IsTcp(p) && N.Fits(p) && Announced(HeaderOf(p), SegmentOf(p)) == 0
    ensures Passes(p, right) && !Passes(p, wrong)
  {
    right := Balanced(p, 0);
    wrong := Balanced(p, 1);
  }

  lemma Balanced(p: seq<byte>, r: nat) returns (w: Wire)
    requires N.IsTcp(p) && N.Fits(p) && r < 0xFFFF
    ensures Surplus(SegmentOf(p), NumbersFor(p, w)) % 0xFFFF == r
  {
    var c := Surplus(SegmentOf(p), NumbersFor(p, Filled(0)));
    var x := (r - c) % 0xFFFF;
    FilledSurplus(p, x);
    Cancel(c, r);
    w := Filled(x);
  }

  lemma Cancel(c: int, r: nat)
    requires r < 0xFFFF
    ensures (c + (r - c) % 0xFFFF) % 0xFFFF == r
  {
    var k := (r - c) / 0xFFFF;
    assert c + (r - c) % 0xFFFF == r - 0xFFFF * k;
  }

  /** For a packet without data, some contents of the unassigned locals make the exchange last as long
      as one likes. */
  lemma {:induction false} CanLast(p: seq<byte>, n: nat) returns (ws: seq<Wire>)
    requires N.Fits(p) && N.Reaches(p) && Announced(HeaderOf(p), SegmentOf(p)) == 0
    ensures |ws| == n && AllPass(p, ws)
    decreases n
  {
    if n <= 1 {
      ws := seq(n, _ => Filled(0));
    } else {
      var right, wrong := EitherWay(p);
      ResetReachesIff(p, right);
      var rest := CanLast(ResetTo(p, right), n - 1);
      ws := [right] + rest;
      assert ws[1..] == rest;
    }
  }

  /** And others end it at the first reset: between two instances away from the listening port, only
      what happens to be in those locals decides. */
  lemma LocalsDecide(here: Table, there: Table, p: seq<byte>, n: nat) returns (on: seq<Wire>, off: seq<Wire>)
    requires Tidy(here) && Tidy(there) && N.Fits(p) && N.Reaches(p) && Elsewhere(p) && n >= 2
    requires Announced(HeaderOf(p), SegmentOf(p)) == 0
    ensures |on| == |off| == n && Bounces(here, there, p, on) == n && Bounces(here, there, p, off) == 1
  {
    on := CanLast(p, n);
    BouncesIff(here, there, p, on);
    var right, wrong := EitherWay(p);
    off := seq(n, _ => wrong);
    SentFor(here, p, off[0]);
    ResetReachesIff(p, off[0]);
    NotReached(there, N.Demux(here, p, off[0].iss, true, off[0].junk).table, ResetTo(p, off[0]), off[1..]);
  }
}
