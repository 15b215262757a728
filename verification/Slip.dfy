/**
 Framing of packets on the serial line: `tunslip6` puts every packet into a send buffer with the END and ESC bytes
 stuffed, the buffer is written out in whatever pieces the line accepts, and the receiver rebuilds the packets from
 whatever pieces the line delivers.
 */
module Slip {
  import opened Bytes

  const END: Byte := 192
  const ESC: Byte := 219
  const ESC_END: Byte := 220
  const ESC_ESC: Byte := 221

  const BUFFER_SIZE: nat := 2000

  // ---------------------------------------------------------------- encoding

  function Stuffed(c: Byte): seq<Byte> {
    if c == END then [ESC, ESC_END] else if c == ESC then [ESC, ESC_ESC] else [c]
  }

  function Escape(p: seq<Byte>): seq<Byte> {
    if p == [] then [] else Escape(p[..|p| - 1]) + Stuffed(p[|p| - 1])
  }

  function Encode(p: seq<Byte>): seq<Byte> {
    Escape(p) + [END]
  }

  function EncodeAll(packets: seq<seq<Byte>>): seq<Byte> {
    if packets == [] then [] else EncodeAll(packets[..|packets| - 1]) + Encode(packets[|packets| - 1])
  }

  lemma {:induction false} EscapeLonger(p: seq<Byte>)
    ensures |p| <= |Escape(p)| <= 2 * |p|
  {
    if p != [] {
      EscapeLonger(p[..|p| - 1]);
    }
  }

  // ---------------------------------------------------------------- decoding

  /** `is_sensible_string`, which does not look at the first byte. */
  predicate Sensible(p: seq<Byte>) {
    forall i :: 1 <= i < |p| ==> p[i] in {0, 9, 10, 13} || 32 <= p[i] <= 126
  }

  /** These verbosities echo lines of text as they arrive. */
  predicate Echoes(verbose: int) {
    verbose == 2 || verbose == 3 || verbose > 4
  }

  /** The echo of a line also removes it from the packet. */
  predicate Cut(verbose: int, p: seq<Byte>) {
    Echoes(verbose) && p != [] && p[|p| - 1] == 10 && Sensible(p)
  }

  function Put(verbose: int, buffer: seq<Byte>, c: Byte): seq<Byte> {
    var longer := buffer + [c];
    if Cut(verbose, longer) || |longer| >= BUFFER_SIZE then [] else longer
  }

  /** What the receive buffer holds after the bytes of `p`. */
  function Fill(verbose: int, buffer: seq<Byte>, p: seq<Byte>): seq<Byte> {
    if p == [] then buffer else Put(verbose, Fill(verbose, buffer, p[..|p| - 1]), p[|p| - 1])
  }

  /** `buffer` is the packet so far, `escaped` that an ESC was put back, `completed` the packets that ended. */
  datatype Decoder = Decoder(buffer: seq<Byte>, escaped: bool, completed: seq<seq<Byte>>)

  function Unstuffed(c: Byte): Byte {
    if c == ESC_END then END else if c == ESC_ESC then ESC else c
  }

  function Feed(verbose: int, d: Decoder, c: Byte): Decoder {
    if d.escaped then
      Decoder(Put(verbose, d.buffer, Unstuffed(c)), false, d.completed)
    else if c == END then
      Decoder([], false, if d.buffer == [] then d.completed else d.completed + [d.buffer])
    else if c == ESC then
      d.(escaped := true)
    else
      d.(buffer := Put(verbose, d.buffer, c))
  }

  function Decode(verbose: int, d: Decoder, s: seq<Byte>): Decoder {
    if s == [] then d else Feed(verbose, Decode(verbose, d, s[..|s| - 1]), s[|s| - 1])
  }

  lemma {:induction false} DecodeConcat(verbose: int, d: Decoder, s: seq<Byte>, t: seq<Byte>)
    ensures Decode(verbose, d, s + t) == Decode(verbose, Decode(verbose, d, s), t)
  {
    if t == [] {
      assert s + t == s;
    } else {
      DecodeConcat(verbose, d, s, t[..|t| - 1]);
      assert (s + t)[..|s + t| - 1] == s + t[..|t| - 1];
    }
  }

  lemma DecodeOne(verbose: int, d: Decoder, c: Byte)
    ensures Decode(verbose, d, [c]) == Feed(verbose, d, c)
  {
    assert [c][..0] == [];
    assert Decode(verbose, d, [c][..0]) == d;
  }

  lemma DecodeStuffed(verbose: int, d: Decoder, c: Byte)
    requires !d.escaped
    ensures Decode(verbose, d, Stuffed(c)) == d.(buffer := Put(verbose, d.buffer, c))
  {
    if c == END || c == ESC {
      var second: Byte := if c == END then ESC_END else ESC_ESC;
      assert Stuffed(c) == [ESC] + [second];
      DecodeConcat(verbose, d, [ESC], [second]);
      DecodeOne(verbose, d, ESC);
      DecodeOne(verbose, d.(escaped := true), second);
    } else {
      DecodeOne(verbose, d, c);
    }
  }

  lemma {:induction false} DecodeEscape(verbose: int, d: Decoder, p: seq<Byte>)
    requires !d.escaped
    ensures Decode(verbose, d, Escape(p)) == d.(buffer := Fill(verbose, d.buffer, p))
  {
    if p != [] {
      var front := p[..|p| - 1];
      DecodeEscape(verbose, d, front);
      DecodeConcat(verbose, d, Escape(front), Stuffed(p[|p| - 1]));
      DecodeStuffed(verbose, d.(buffer := Fill(verbose, d.buffer, front)), p[|p| - 1]);
    }
  }

  /** What one packet is delivered as: at most one packet. */
  function Delivery(verbose: int, p: seq<Byte>): seq<seq<Byte>> {
    var rest := Fill(verbose, [], p);
    if rest == [] then [] else [rest]
  }

  function Deliveries(verbose: int, packets: seq<seq<Byte>>): seq<seq<Byte>> {
    if packets == [] then []
    else Deliveries(verbose, packets[..|packets| - 1]) + Delivery(verbose, packets[|packets| - 1])
  }

  lemma DecodeEncode(verbose: int, d: Decoder, p: seq<Byte>)
    requires !d.escaped && d.buffer == []
    ensures Decode(verbose, d, Encode(p)) == d.(completed := d.completed + Delivery(verbose, p))
  {
    DecodeEscape(verbose, d, p);
    DecodeConcat(verbose, d, Escape(p), [END]);
    DecodeOne(verbose, d.(buffer := Fill(verbose, [], p)), END);
    assert d.completed + [] == d.completed;
  }

  /** Whatever was sent, the decoder completes what each packet is delivered as, in order, and nothing else. */
  lemma {:induction false} DecodeEncodeAll(verbose: int, d: Decoder, packets: seq<seq<Byte>>)
    requires !d.escaped && d.buffer == []
    ensures Decode(verbose, d, EncodeAll(packets)) == d.(completed := d.completed + Deliveries(verbose, packets))
  {
    if packets == [] {
      assert d.completed + [] == d.completed;
    } else {
      var front, last := packets[..|packets| - 1], packets[|packets| - 1];
      DecodeEncodeAll(verbose, d, front);
      DecodeConcat(verbose, d, EncodeAll(front), Encode(last));
      var between := d.(completed := d.completed + Deliveries(verbose, front));
      DecodeEncode(verbose, between, last);
      assert (d.completed + Deliveries(verbose, front)) + Delivery(verbose, last)
          == d.completed + Deliveries(verbose, packets);
    }
  }

  // ---------------------------------------------------------------- which packets survive

  ghost predicate Uncut(verbose: int, p: seq<Byte>) {
    forall k: nat :: k <= |p| ==> !Cut(verbose, p[..k])
  }

  /** A packet that the receive buffer can hold and that the echo does not cut anywhere. */
  ghost predicate Survives(verbose: int, p: seq<Byte>) {
    0 < |p| < BUFFER_SIZE && Uncut(verbose, p)
  }

  lemma UncutSplit(verbose: int, p: seq<Byte>)
    requires p != []
    ensures Uncut(verbose, p) <==> Uncut(verbose, p[..|p| - 1]) && !Cut(verbose, p)
  {
    var front := p[..|p| - 1];
    assert p[..|p|] == p;
    assert forall k: nat :: k <= |front| ==> front[..k] == p[..k];
  }

  lemma PutSame(verbose: int, buffer: seq<Byte>, p: seq<Byte>)
    requires p != [] && |buffer| <= |p| - 1
    ensures |Put(verbose, buffer, p[|p| - 1])| <= |p|
    ensures Put(verbose, buffer, p[|p| - 1]) == p <==>
            buffer == p[..|p| - 1] && |p| < BUFFER_SIZE && !Cut(verbose, p)
  {
    var longer := buffer + [p[|p| - 1]];
    assert longer[..|buffer|] == buffer;
    assert p == p[..|p| - 1] + [p[|p| - 1]];
  }

  lemma {:induction false} FilledIntactIff(verbose: int, p: seq<Byte>)
    ensures |Fill(verbose, [], p)| <= |p|
    ensures Fill(verbose, [], p) == p <==> p == [] || (|p| < BUFFER_SIZE && Uncut(verbose, p))
  {
    if p != [] {
      var front := p[..|p| - 1];
      FilledIntactIff(verbose, front);
      PutSame(verbose, Fill(verbose, [], front), p);
      UncutSplit(verbose, p);
      if front == [] {
        assert !Cut(verbose, front);
        assert Uncut(verbose, front);
      }
    }
  }

  lemma OneMoreModulo(n: nat)
    ensures (n + 1) % BUFFER_SIZE == if n % BUFFER_SIZE + 1 == BUFFER_SIZE then 0 else n % BUFFER_SIZE + 1
  {
    assert n == n / BUFFER_SIZE * BUFFER_SIZE + n % BUFFER_SIZE;
  }

  lemma TailGrows(p: seq<Byte>, kept: nat)
    requires p != [] && kept < |p|
    ensures var front := p[..|p| - 1];
            front[|front| - kept..] + [p[|p| - 1]] == p[|p| - (kept + 1)..]
  {
  }

  /** Without the echo a packet of any length is delivered as its last bytes, the length modulo the buffer size. */
  lemma {:induction false} LongPacketKeepsTail(verbose: int, p: seq<Byte>)
    requires !Echoes(verbose)
    ensures Fill(verbose, [], p) == p[|p| - |p| % BUFFER_SIZE..]
  {
    if p != [] {
      var front := p[..|p| - 1];
      LongPacketKeepsTail(verbose, front);
      OneMoreModulo(|front|);
      TailGrows(p, |front| % BUFFER_SIZE);
    }
  }

  /** One more packet comes out as it went in if and only if all before it do and it survives. */
  lemma OneMoreIntact(verbose: int, front: seq<seq<Byte>>, last: seq<Byte>, received: seq<seq<Byte>>)
    requires |received| <= |front|
    ensures |received + Delivery(verbose, last)| <= |front| + 1
    ensures received + Delivery(verbose, last) == front + [last] <==> received == front && Survives(verbose, last)
  {
    FilledIntactIff(verbose, last);
    var rest := Fill(verbose, [], last);
    if rest != [] {
      assert (received + [rest])[..|received|] == received;
      assert (front + [last])[..|front|] == front;
    }
  }

  ghost predicate AllSurvive(verbose: int, packets: seq<seq<Byte>>) {
    forall i :: 0 <= i < |packets| ==> Survives(verbose, packets[i])
  }

  /** The decoder completes exactly what was sent if and only if every packet survives. */
  lemma {:induction false} DeliveredIntactIff(verbose: int, packets: seq<seq<Byte>>)
    ensures |Deliveries(verbose, packets)| <= |packets|
    ensures Deliveries(verbose, packets) == packets <==> AllSurvive(verbose, packets)
  {
    if packets != [] {
      var front, last := packets[..|packets| - 1], packets[|packets| - 1];
      assert packets == front + [last];
      DeliveredIntactIff(verbose, front);
      OneMoreIntact(verbose, front, last, Deliveries(verbose, front));
      assert AllSurvive(verbose, packets) <==> AllSurvive(verbose, front) && Survives(verbose, last) by {
        AllSurviveSplit(verbose, front, last);
      }
    }
  }

  lemma AllSurviveSplit(verbose: int, front: seq<seq<Byte>>, last: seq<Byte>)
    ensures AllSurvive(verbose, front + [last]) <==> AllSurvive(verbose, front) && Survives(verbose, last)
  {
    var packets := front + [last];
    assert packets[|front|] == last;
    assert forall i :: 0 <= i < |front| ==> packets[i] == front[i];
  }

  lemma FitsSurvives(verbose: int, p: seq<Byte>)
    requires !Echoes(verbose) && p != [] && |Encode(p)| <= BUFFER_SIZE
    ensures Survives(verbose, p)
  {
    EscapeLonger(p);
  }

  // ---------------------------------------------------------------- the sender

  lemma EscapeFront(p: seq<Byte>, i: nat, before: seq<Byte>)
    requires i < |p|
    ensures Escape(p[..i + 1]) == Escape(p[..i]) + Stuffed(p[i])
    ensures before + Escape(p[..i]) + Stuffed(p[i]) == before + Escape(p[..i + 1])
  {
    assert p[..i + 1][..i] == p[..i];
  }

  lemma {:induction false} EscapeGrows(p: seq<Byte>, i: nat)
    requires i <= |p|
    ensures |Escape(p[..i])| <= |Escape(p)|
    decreases |p| - i
  {
    if i == |p| {
      assert p[..i] == p;
    } else {
      EscapeFront(p, i, []);
      EscapeGrows(p, i + 1);
    }
  }

  class Sender {
    const slipBuf: array<Byte>
    var slipBegin: nat
    var slipEnd: nat
    /** The bytes the line has accepted. */
    var line: seq<Byte>

    ghost predicate Valid()
      reads this
    {
      slipBuf.Length == BUFFER_SIZE && slipBegin <= slipEnd <= BUFFER_SIZE &&
      (slipBegin == slipEnd ==> slipEnd == 0)
    }

    function Queued(): seq<Byte>
      reads this, slipBuf
    {
      if slipBegin <= slipEnd <= slipBuf.Length then slipBuf[slipBegin..slipEnd] else []
    }

    constructor ()
      ensures Valid() && fresh(slipBuf) && Queued() == [] && line == []
    {
      slipBuf := new Byte[BUFFER_SIZE];
      slipBegin, slipEnd, line := 0, 0, [];
    }

    predicate Empty()
      reads this
    {
      slipEnd == 0
    }

    method Send(c: Byte) returns (ok: bool)
      requires Valid()
      modifies `slipEnd, slipBuf
      ensures ok <==> old(slipEnd) < BUFFER_SIZE
      ensures Valid()
      ensures slipEnd == old(slipEnd) + if ok then 1 else 0
      ensures Queued() == old(Queued()) + if ok then [c] else []
    {
      if slipEnd >= BUFFER_SIZE {
        return false;
      }
      slipBuf[slipEnd] := c;
      slipEnd := slipEnd + 1;
      assert slipBuf[slipBegin..slipEnd] == slipBuf[slipBegin..slipEnd - 1] + [c];
      return true;
    }

    method SendStuffed(c: Byte) returns (ok: bool)
      requires Valid()
      modifies `slipEnd, slipBuf
      ensures Valid()
      ensures ok <==> old(slipEnd) + |Stuffed(c)| <= BUFFER_SIZE
      ensures slipEnd >= old(slipEnd)
      ensures ok ==> slipEnd == old(slipEnd) + |Stuffed(c)|
      ensures ok ==> Queued() == old(Queued()) + Stuffed(c)
    {
      ghost var before := Queued();
      if c == END {
        ok := Send(ESC);
        if ok {
          ok := Send(ESC_END);
          assert before + [ESC] + [ESC_END] == before + Stuffed(c);
        }
      } else if c == ESC {
        ok := Send(ESC);
        if ok {
          ok := Send(ESC_ESC);
          assert before + [ESC] + [ESC_ESC] == before + Stuffed(c);
        }
      } else {
        ok := Send(c);
      }
    }

    /** An overflow, which ends the program, happens exactly when the encoded packet does not fit behind the rest. */
    method WriteToSerial(p: seq<Byte>) returns (ok: bool)
      requires Valid()
      modifies `slipEnd, slipBuf
      ensures Valid()
      ensures ok <==> old(slipEnd) + |Encode(p)| <= BUFFER_SIZE
      ensures ok ==> Queued() == old(Queued()) + Encode(p)
    {
      ghost var before := Queued();
      var i := 0;
      while i < |p|
        invariant 0 <= i <= |p|
        invariant Valid()
        invariant slipEnd == old(slipEnd) + |Escape(p[..i])|
        invariant Queued() == before + Escape(p[..i])
      {
        EscapeFront(p, i, before);
        EscapeGrows(p, i + 1);
        ok := SendStuffed(p[i]);
        if !ok {
          return;
        }
        i := i + 1;
      }
      assert p[..i] == p;
      ok := Send(END);
      assert before + Escape(p) + [END] == before + Encode(p);
    }

    /** `accepted` is what `write` returns: none when the line would block. */
    method Flush(accepted: int)
      requires Valid()
      requires accepted == -1 || 0 <= accepted <= slipEnd - slipBegin
      modifies `slipBegin, `slipEnd, `line
      ensures Valid()
      ensures var n := if accepted == -1 then 0 else accepted;
              line == old(line) + old(Queued())[..n] && Queued() == old(Queued())[n..]
      ensures Empty() <==> Queued() == []
    {
      if Empty() {
        return;
      }
      if accepted == -1 {
        return;
      }
      line := line + slipBuf[slipBegin..slipBegin + accepted];
      slipBegin := slipBegin + accepted;
      if slipBegin == slipEnd {
        slipBegin, slipEnd := 0, 0;
      }
    }
  }

  // ---------------------------------------------------------------- the receiver

  /** The packets that are neither a control message, a debug line nor text go to the tunnel device. */
  predicate IsData(p: seq<Byte>) {
    p != [] && p[0] !in {33, 63, 13} && !Sensible(p)
  }

  /** Some byte behind the first is no text: not NUL, tab, line feed, carriage return or printable. */
  predicate Binary(p: seq<Byte>) {
    exists i :: 1 <= i < |p| && (p[i] > 126 || (p[i] < 32 && p[i] != 0 && p[i] != 9 && p[i] != 10 && p[i] != 13))
  }

  /** Data is what is binary and begins neither with '!' or '?' nor with a carriage return. */
  lemma DataIff(p: seq<Byte>)
    ensures IsData(p) <==> Binary(p) && p[0] as int != '!' as int && p[0] as int != '?' as int && p[0] != 13
  {
    if !Sensible(p) {
      var i :| 1 <= i < |p| && !(p[i] in {0, 9, 10, 13} || 32 <= p[i] <= 126);
      assert p[i] > 126 || (p[i] < 32 && p[i] != 0 && p[i] != 9 && p[i] != 10 && p[i] != 13);
    }
  }

  /** The bytes of RFC 1055 for a packet of END, an ordinary byte and ESC. */
  lemma EncodingOf(x: Byte)
    requires x != 192 && x != 219
    ensures Encode([192, x, 219]) == [219, 220, x, 219, 221, 192]
  {
    assert [192, x, 219][..2] == [192, x] && [192, x][..1] == [192] && [192][..0] == [];
    assert Escape([192]) == [219, 220];
    assert Escape([192, x]) == [219, 220, x];
    assert Escape([192, x, 219]) == [219, 220, x, 219, 221];
  }

  function Data(packets: seq<seq<Byte>>): seq<seq<Byte>> {
    if packets == [] then []
    else Data(packets[..|packets| - 1]) +
         if IsData(packets[|packets| - 1]) then [packets[|packets| - 1]] else []
  }

  lemma DataMore(packets: seq<seq<Byte>>, p: seq<Byte>)
    ensures Data(packets + [p]) == Data(packets) + if IsData(p) then [p] else []
  {
    assert (packets + [p])[..|packets|] == packets;
  }

  lemma DecodeNext(verbose: int, d: Decoder, s: seq<Byte>, i: nat)
    requires i < |s|
    ensures Decode(verbose, d, s[..i + 1]) == Feed(verbose, Decode(verbose, d, s[..i]), s[i])
  {
    assert s[..i + 1][..i] == s[..i];
  }

  class Receiver {
    const verbose: int
    const inbuf: array<Byte>
    var inbufptr: nat
    /** An ESC whose second byte had not arrived was put back into the input stream. */
    var pushedBack: bool
    /** The packets written to the tunnel device. */
    var tun: seq<seq<Byte>>
    ghost var completed: seq<seq<Byte>>

    ghost predicate Valid()
      reads this
    {
      inbuf.Length == BUFFER_SIZE && inbufptr < BUFFER_SIZE && tun == Data(completed)
    }

    ghost function State(): Decoder
      reads this, inbuf
    {
      Decoder(if inbufptr <= inbuf.Length then inbuf[..inbufptr] else [], pushedBack, completed)
    }

    constructor (verbose: int)
      ensures Valid() && fresh(inbuf) && this.verbose == verbose
      ensures State() == Decoder([], false, [])
    {
      this.verbose := verbose;
      inbuf := new Byte[BUFFER_SIZE];
      inbufptr, pushedBack, tun := 0, false, [];
      completed := [];
    }

    method Complete()
      requires Valid() && !pushedBack
      modifies `inbufptr, `tun, `completed
      ensures Valid()
      ensures State() == Feed(verbose, old(State()), END)
    {
      if inbufptr > 0 {
        var packet := inbuf[..inbufptr];
        DataMore(completed, packet);
        if packet[0] != 33 && packet[0] != 63 && packet[0] != 13 && !Sensible(packet) {
          tun := tun + [packet];
        }
        completed := completed + [packet];
        inbufptr := 0;
      }
    }

    method Store(c: Byte)
      requires Valid()
      modifies `inbufptr, inbuf
      ensures Valid()
      ensures State() == old(State()).(buffer := Put(verbose, old(State()).buffer, c))
    {
      inbuf[inbufptr] := c;
      inbufptr := inbufptr + 1;
      assert inbuf[..inbufptr] == old(inbuf[..inbufptr]) + [c];
      if verbose == 2 || verbose == 3 || verbose > 4 {
        if c == 10 {
          if Sensible(inbuf[..inbufptr]) {
            inbufptr := 0;
          }
        }
      }
      if inbufptr >= BUFFER_SIZE {
        inbufptr := 0;
      }
    }

    /**
     Reads whatever has arrived. The first read has to find a byte: the call is made when the line is readable, and
     the program ends otherwise. `chunk` is decoded the same way however it was cut from the stream.
     */
    method SerialToTun(chunk: seq<Byte>) returns (ok: bool)
      requires Valid()
      modifies this, inbuf
      ensures Valid()
      ensures ok <==> old(pushedBack) || chunk != []
      ensures State() == Decode(verbose, old(State()), chunk)
    {
      var input := (if pushedBack then [ESC] else []) + chunk;
      ghost var start := State();
      ghost var plain := start.(escaped := false);
      assert Decode(verbose, plain, input) == Decode(verbose, start, chunk) by {
        DecodeConcat(verbose, plain, if start.escaped then [ESC] else [], chunk);
        DecodeOne(verbose, plain, ESC);
      }
      if input == [] {
        return false;
      }
      pushedBack := false;
      var i := 0;
      while i < |input|
        invariant 0 <= i <= |input|
        invariant Valid() && !pushedBack
        invariant State() == Decode(verbose, plain, input[..i])
      {
        var c := input[i];
        ghost var before := State();
        DecodeNext(verbose, plain, input, i);
        i := i + 1;
        if c == END {
          Complete();
        } else if c == ESC {
          if i == |input| {
            pushedBack := true;
            assert input[..i] == input;
            return true;
          }
          c := input[i];
          DecodeNext(verbose, plain, input, i);
          i := i + 1;
          Store(Unstuffed(c));
        } else {
          Store(c);
        }
      }
      assert input[..i] == input;
      return true;
    }
  }

  // ---------------------------------------------------------------- whole runs

  /** What a turn of the main loop finds to do: a packet from the tunnel, room on the line, or bytes on the line. */
  datatype Step = Packet(p: seq<Byte>) | Write(n: nat) | Read(n: nat)

  /** `queue` waits in the send buffer, `wire` is under way, `read` was read; `sent` are the packets so far. */
  datatype Link = Link(queue: seq<Byte>, wire: seq<Byte>, read: seq<Byte>, decoder: Decoder, sent: seq<seq<Byte>>)

  /** The program begins with an END. */
  const START: Link := Link([END], [], [], Decoder([], false, []), [])

  /** A packet is taken only when the send buffer is empty, and has to fit it. */
  predicate Enabled(l: Link, step: Step) {
    match step
    case Packet(p) => l.queue == [] && |Encode(p)| <= BUFFER_SIZE
    case Write(n) => n <= |l.queue|
    case Read(n) => 0 < n <= |l.wire|
  }

  function Next(verbose: int, l: Link, step: Step): Link
    requires Enabled(l, step)
  {
    match step
    case Packet(p) => l.(queue := Encode(p), sent := l.sent + [p])
    case Write(n) => l.(queue := l.queue[n..], wire := l.wire + l.queue[..n])
    case Read(n) =>
      l.(wire := l.wire[n..], read := l.read + l.wire[..n], decoder := Decode(verbose, l.decoder, l.wire[..n]))
  }

  /** Any schedule is a run; the main loop passes over a step that is not enabled. */
  function After(verbose: int, steps: seq<Step>): Link {
    if steps == [] then START
    else
      var l := After(verbose, steps[..|steps| - 1]);
      var step := steps[|steps| - 1];
      if Enabled(l, step) then Next(verbose, l, step) else l
  }

  lemma Regroup(a: seq<Byte>, b: seq<Byte>, c: seq<Byte>)
    ensures a + (b + c) == a + b + c
  {
  }

  /** No byte is lost, doubled or reordered between the packets and the decoder. */
  ghost predicate Conserved(verbose: int, l: Link) {
    l.read + l.wire + l.queue == [END] + EncodeAll(l.sent) && l.decoder == Decode(verbose, START.decoder, l.read)
  }

  lemma PacketConserves(verbose: int, l: Link, p: seq<Byte>)
    requires Conserved(verbose, l) && Enabled(l, Packet(p))
    ensures Conserved(verbose, Next(verbose, l, Packet(p)))
  {
    assert (l.sent + [p])[..|l.sent|] == l.sent;
    assert l.read + l.wire + [] == l.read + l.wire;
    Regroup([END], EncodeAll(l.sent), Encode(p));
  }

  lemma WriteConserves(verbose: int, l: Link, n: nat)
    requires Conserved(verbose, l) && Enabled(l, Write(n))
    ensures Conserved(verbose, Next(verbose, l, Write(n)))
  {
    assert l.queue == l.queue[..n] + l.queue[n..];
    assert l.read + (l.wire + l.queue[..n]) + l.queue[n..] == l.read + l.wire + l.queue;
  }

  lemma ReadConserves(verbose: int, l: Link, n: nat)
    requires Conserved(verbose, l) && Enabled(l, Read(n))
    ensures Conserved(verbose, Next(verbose, l, Read(n)))
  {
    assert l.wire == l.wire[..n] + l.wire[n..];
    assert l.read + l.wire[..n] + l.wire[n..] + l.queue == l.read + l.wire + l.queue;
    DecodeConcat(verbose, START.decoder, l.read, l.wire[..n]);
  }

  lemma StepConserves(verbose: int, l: Link, step: Step)
    requires Conserved(verbose, l) && Enabled(l, step)
    ensures Conserved(verbose, Next(verbose, l, step))
  {
    match step
    case Packet(p) => PacketConserves(verbose, l, p);
    case Write(n) => WriteConserves(verbose, l, n);
    case Read(n) => ReadConserves(verbose, l, n);
  }

  lemma {:induction false} RunConserves(verbose: int, steps: seq<Step>)
    ensures Conserved(verbose, After(verbose, steps))
  {
    if steps != [] {
      RunConserves(verbose, steps[..|steps| - 1]);
      var l := After(verbose, steps[..|steps| - 1]);
      if Enabled(l, steps[|steps| - 1]) {
        StepConserves(verbose, l, steps[|steps| - 1]);
      }
    }
  }

  lemma {:induction false} CompletedGrows(verbose: int, d: Decoder, s: seq<Byte>)
    ensures d.completed <= Decode(verbose, d, s).completed
  {
    if s != [] {
      CompletedGrows(verbose, d, s[..|s| - 1]);
    }
  }

  /**
     At any time of any run the packets completed are the first of those to be delivered, and they are all of them
     once nothing is under way.
   */
  lemma RunDelivers(verbose: int, steps: seq<Step>)
    ensures var l := After(verbose, steps);
            && l.decoder.completed <= Deliveries(verbose, l.sent)
            && (l.queue == [] && l.wire == [] ==> l.decoder == Decoder([], false, Deliveries(verbose, l.sent)))
  {
    var l := After(verbose, steps);
    RunConserves(verbose, steps);
    var rest := l.wire + l.queue;
    assert l.read + rest == [END] + EncodeAll(l.sent);
    DecodeConcat(verbose, START.decoder, l.read, rest);
    DecodeConcat(verbose, START.decoder, [END], EncodeAll(l.sent));
    DecodeOne(verbose, START.decoder, END);
    CompletedGrows(verbose, l.decoder, rest);
    DecodeEncodeAll(verbose, START.decoder, l.sent);
    assert [] + Deliveries(verbose, l.sent) == Deliveries(verbose, l.sent);
  }

  lemma {:induction false} SentFit(verbose: int, steps: seq<Step>, p: seq<Byte>)
    requires p in After(verbose, steps).sent
    ensures |Encode(p)| <= BUFFER_SIZE
  {
    var l := After(verbose, steps[..|steps| - 1]);
    if p in l.sent {
      SentFit(verbose, steps[..|steps| - 1], p);
    }
  }

  /** Without the echo, non-empty packets are completed as they were sent, in order, whatever the schedule. */
  lemma PacketsArrive(verbose: int, steps: seq<Step>)
    requires !Echoes(verbose)
    requires forall p :: p in After(verbose, steps).sent ==> p != []
    ensures var l := After(verbose, steps);
            && l.decoder.completed <= l.sent
            && (l.queue == [] && l.wire == [] ==> l.decoder.completed == l.sent)
  {
    var l := After(verbose, steps);
    forall i | 0 <= i < |l.sent| ensures Survives(verbose, l.sent[i]) {
      SentFit(verbose, steps, l.sent[i]);
      FitsSurvives(verbose, l.sent[i]);
    }
    DeliveredIntactIff(verbose, l.sent);
    RunDelivers(verbose, steps);
  }

  /** Packets that are not data are left out. */
  lemma {:induction false} DataShorter(packets: seq<seq<Byte>>)
    ensures |Data(packets)| <= |packets|
    ensures |Data(packets)| == |packets| <==> forall p :: p in packets ==> IsData(p)
    ensures |Data(packets)| == |packets| ==> Data(packets) == packets
  {
    if packets != [] {
      var n := |packets| - 1;
      DataShorter(packets[..n]);
      assert packets == packets[..n] + [packets[n]];
    }
  }

  /** Data packets, as `DataIff` says. */
  predicate AllData(packets: seq<seq<Byte>>) {
    forall p :: p in packets ==> Binary(p) && p[0] as int !in {'!' as int, '?' as int, '\r' as int}
  }

  lemma AllDataIff(packets: seq<seq<Byte>>)
    ensures AllData(packets) <==> forall p :: p in packets ==> IsData(p)
  {
    forall p | p in packets
      ensures IsData(p) <==> Binary(p) && p[0] as int !in {'!' as int, '?' as int, '\r' as int}
    {
      DataIff(p);
    }
  }

  /** What is sent is written to the tunnel device unchanged if and only if all packets survive and are data. */
  lemma TunnelIntactIff(verbose: int, packets: seq<seq<Byte>>)
    ensures Data(Deliveries(verbose, packets)) == packets <==> AllSurvive(verbose, packets) && AllData(packets)
  {
    AllDataIff(packets);
    DeliveredIntactIff(verbose, packets);
    DataShorter(Deliveries(verbose, packets));
    DataShorter(packets);
  }

  lemma {:induction false} DataPrefix(a: seq<seq<Byte>>, b: seq<seq<Byte>>)
    requires a <= b
    ensures Data(a) <= Data(b)
  {
    if |a| == |b| {
      assert a == b;
    } else {
      DataPrefix(a, b[..|b| - 1]);
    }
  }

  /** Without the echo, data packets are written to the tunnel device as they were sent, in order. */
  lemma TunnelGets(verbose: int, steps: seq<Step>)
    requires !Echoes(verbose) && AllData(After(verbose, steps).sent)
    ensures var l := After(verbose, steps);
            && Data(l.decoder.completed) <= l.sent
            && (l.queue == [] && l.wire == [] ==> Data(l.decoder.completed) == l.sent)
  {
    var l := After(verbose, steps);
    AllDataIff(l.sent);
    PacketsArrive(verbose, steps);
    DataPrefix(l.decoder.completed, l.sent);
    DataShorter(l.sent);
  }

  /** A line of text at verbosity 2: nothing of it is delivered. */
  lemma TextIsEchoed()
    ensures Deliveries(2, [[65, 10]]) == []
  {
    assert [65, 10][..1] == [65] && [65][..0] == [];
    assert Fill(2, [], [65]) == [65];
    assert Fill(2, [], [65, 10]) == [];
    assert [[65, 10]][..0] == [];
  }

  /** The two programs are in the state of `l`, after the receiver has read `delivered` bytes. */
  ghost predicate Matches(sender: Sender, receiver: Receiver, delivered: nat, l: Link)
    reads sender, sender.slipBuf, receiver, receiver.inbuf
  {
    && sender.Valid() && receiver.Valid()
    && sender.slipBuf != receiver.inbuf
    && sender.Queued() == l.queue
    && sender.line == l.read + l.wire
    && delivered == |l.read|
    && receiver.State() == l.decoder
  }

  method TurnPacket(sender: Sender, receiver: Receiver, p: seq<Byte>, delivered: nat, ghost l: Link)
    requires Matches(sender, receiver, delivered, l)
    modifies sender, sender.slipBuf
    ensures var next := if Enabled(l, Packet(p)) then Next(receiver.verbose, l, Packet(p)) else l;
            Matches(sender, receiver, delivered, next)
  {
    if sender.Empty() && |Encode(p)| <= BUFFER_SIZE {
      assert l.queue + Encode(p) == Encode(p);
      var ok := sender.WriteToSerial(p);
    }
  }

  method TurnWrite(sender: Sender, receiver: Receiver, n: nat, delivered: nat, ghost l: Link)
    requires Matches(sender, receiver, delivered, l)
    modifies sender
    ensures var next := if Enabled(l, Write(n)) then Next(receiver.verbose, l, Write(n)) else l;
            Matches(sender, receiver, delivered, next)
  {
    if n <= sender.slipEnd - sender.slipBegin {
      Regroup(l.read, l.wire, l.queue[..n]);
      sender.Flush(n);
    }
  }

  method TurnRead(sender: Sender, receiver: Receiver, n: nat, delivered: nat, ghost l: Link) returns (now: nat)
    requires Matches(sender, receiver, delivered, l)
    modifies receiver, receiver.inbuf
    ensures var next := if Enabled(l, Read(n)) then Next(receiver.verbose, l, Read(n)) else l;
            Matches(sender, receiver, now, next)
  {
    now := delivered;
    if 0 < n <= |sender.line| - delivered {
      var chunk := sender.line[delivered..delivered + n];
      assert chunk == l.wire[..n];
      var ok := receiver.SerialToTun(chunk);
      now := delivered + n;
      Regroup(l.read, l.wire[..n], l.wire[n..]);
    }
  }

  /** The main loop with one program at each end of the line does exactly what the steps say. */
  method MainLoop(verbose: int, steps: seq<Step>) returns (sender: Sender, receiver: Receiver, delivered: nat)
    ensures Matches(sender, receiver, delivered, After(verbose, steps))
    ensures receiver.tun == Data(After(verbose, steps).decoder.completed)
  {
    sender := new Sender();
    var ok := sender.Send(END);
    receiver := new Receiver(verbose);
    delivered := 0;
    for k := 0 to |steps|
      invariant fresh(sender) && fresh(sender.slipBuf) && fresh(receiver) && fresh(receiver.inbuf)
      invariant receiver.verbose == verbose
      invariant Matches(sender, receiver, delivered, After(verbose, steps[..k]))
    {
      ghost var l := After(verbose, steps[..k]);
      assert steps[..k + 1][..k] == steps[..k];
      match steps[k]
      case Packet(p) => TurnPacket(sender, receiver, p, delivered, l);
      case Write(n) => TurnWrite(sender, receiver, n, delivered, l);
      case Read(n) => delivered := TurnRead(sender, receiver, n, delivered, l);
    }
    assert steps[..|steps|] == steps;
  }
}
