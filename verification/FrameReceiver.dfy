/** The receiver's state machine over carrier-recovered symbols: it takes a frame apart symbol by
    symbol, knowing only where the sync marker ended. */
module FrameReceiver {

  import opened Bytes
  import opened FrameHeader
  import opened FrameLayout

  // ---- What the symbols since the sync marker amount to ----

  /** Sum of the four repetitions of header bit j, as far as they have arrived. */
  function SoftSum(seen: seq<Symbol>, j: nat): real {
    if seen == [] then 0.0
    else
      var n := |seen| - 1;
      SoftSum(seen[..n], j) + if n < HDR_SYMBOLS && n % HEADER_BITS == j then seen[n].re else 0.0
  }

  function HardBits(seen: seq<Symbol>): (bits: seq<bool>)
    ensures |bits| == HEADER_BITS
  {
    seq(HEADER_BITS, j requires 0 <= j < HEADER_BITS => SoftSum(seen, j) < 0.0)
  }

  /** The header the first 64 symbols carry. */
  function HeaderOf(seen: seq<Symbol>): Option<Header>
    requires |seen| >= HDR_SYMBOLS
  {
    DecodeHeader(HardBits(seen[..HDR_SYMBOLS]))
  }

  /** The payload symbols among what follows the header, in their order. */
  function Collected(seen: seq<Symbol>, n: nat): seq<Symbol>
    requires |seen| >= HDR_SYMBOLS + Spread(n)
  {
    seq(n, i requires 0 <= i < n => PayloadAt(seen, i, n))
  }

  function PayloadAt(seen: seq<Symbol>, i: nat, n: nat): Symbol
    requires i < n && |seen| >= HDR_SYMBOLS + Spread(n)
  {
    PlacesGrow(i, n);
    seen[HDR_SYMBOLS + Place(i)]
  }

  /** What one symbol leads to. */
  datatype Event = Waiting | HeaderError | Finished(header: Header, payload: seq<Symbol>)

  /** The symbols s since the marker end the attempt: a header that does not decode, or the last payload
      symbol. */
  ghost predicate FailsAt(s: seq<Symbol>) {
    |s| == HDR_SYMBOLS && HeaderOf(s) == None
  }

  ghost predicate FinishesAt(s: seq<Symbol>) {
    |s| > HDR_SYMBOLS && HeaderOf(s).Some? && |s| == HDR_SYMBOLS + Spread(PayloadSymbols(HeaderOf(s).value.modcod))
  }

  ghost function Outcome(s: seq<Symbol>): Event {
    if FailsAt(s) then HeaderError
    else if FinishesAt(s) then
      Finished(HeaderOf(s).value, Collected(s, PayloadSymbols(HeaderOf(s).value.modcod)))
    else Waiting
  }

  datatype State = Hunt | InHeader | InPayload

  class Receiver {
    var state: State
    var count: nat
    const hdrSoft: array<real>
    var header: Header
    const payload: array<Symbol>
    var payloadLen: nat
    var payloadCount: nat
    var pilotCount: nat
    var headerErrors: nat
    /** Symbols since the sync marker. */
    ghost var seen: seq<Symbol>

    constructor ()
      ensures Valid() && state == Hunt && headerErrors == 0 && fresh(hdrSoft) && fresh(payload)
    {
      state, count, header, payloadLen, payloadCount, pilotCount, headerErrors := Hunt, 0, Header(0, 0, 0), 0, 0, 0, 0;
      hdrSoft := new real[HEADER_BITS](_ => 0.0);
      payload := new Symbol[MAX_PAYLOAD_SYMBOLS](_ => PILOT);
      seen := [];
    }

    ghost predicate Valid()
      reads this, hdrSoft, payload
    {
      hdrSoft.Length == HEADER_BITS && payload.Length == MAX_PAYLOAD_SYMBOLS &&
      (state == InHeader ==> HeaderValid()) && (state == InPayload ==> PayloadValid())
    }

    ghost predicate HeaderValid()
      requires hdrSoft.Length == HEADER_BITS
      reads this, hdrSoft
    {
      count == |seen| < HDR_SYMBOLS && forall j :: 0 <= j < HEADER_BITS ==> hdrSoft[j] == SoftSum(seen, j)
    }

    ghost predicate PayloadValid()
      requires payload.Length == MAX_PAYLOAD_SYMBOLS
      reads this, payload
    {
      |seen| == HDR_SYMBOLS + Spread(payloadCount) + pilotCount &&
      HeaderOf(seen) == Some(header) && payloadLen == PayloadSymbols(header.modcod) &&
      payloadCount < payloadLen <= MAX_PAYLOAD_SYMBOLS &&
      (pilotCount == 0 || (PilotsBefore(payloadCount) && pilotCount <= PILOT_LEN)) &&
      payload[..payloadCount] == Collected(seen, payloadCount)
    }

    /** The correlator found the marker: the next symbol is the first of a header. */
    method MarkerFound()
      requires Valid() && state == Hunt
      modifies this, hdrSoft
      ensures Valid() && state == InHeader && seen == [] && headerErrors == old(headerErrors)
    {
      hide PayloadValid, SoftSum, PayloadSymbols;
      NothingSummed();
      for i := 0 to HEADER_BITS
        invariant hdrSoft.Length == HEADER_BITS && payload.Length == MAX_PAYLOAD_SYMBOLS
        invariant forall j :: 0 <= j < i ==> hdrSoft[j] == 0.0
        invariant state == Hunt && headerErrors == old(headerErrors)
      {
        hdrSoft[i] := 0.0;
      }
      count := 0;
      seen := [];
      state := InHeader;
    }

    method HeaderSymbol(y: Symbol) returns (e: Event)
      requires Valid() && state == InHeader
      modifies this, hdrSoft
      ensures Valid() && e == Outcome(old(seen) + [y])
      ensures e.Waiting? ==> state != Hunt && seen == old(seen) + [y]
      ensures !e.Waiting? ==> state == Hunt
      ensures headerErrors == old(headerErrors) + if e.HeaderError? then 1 else 0
    {
      hide SoftSum, DecodeHeader, PayloadSymbols, Spread, Place;
      SumsGrow(seen, y);
      hdrSoft[count % HEADER_BITS] := hdrSoft[count % HEADER_BITS] + y.re;
      count := count + 1;
      seen := seen + [y];
      if count < HDR_SYMBOLS { return Waiting; }
      assert seen[..HDR_SYMBOLS] == seen;
      var bits := seq(HEADER_BITS, j requires 0 <= j < HEADER_BITS reads hdrSoft => hdrSoft[j] < 0.0);
      assert bits == HardBits(seen);
      var decoded := ReadHeader(bits);
      if decoded.None? {
        headerErrors := headerErrors + 1;
        state := Hunt;
        return HeaderError;
      }
      header := decoded.value;
      FrameFits(header.modcod);
      EmptySpread();
      payloadLen, payloadCount, pilotCount := PayloadSymbols(header.modcod), 0, 0;
      state := InPayload;
      e := Waiting;
    }

    method PayloadSymbol(y: Symbol) returns (e: Event)
      requires Valid() && state == InPayload
      modifies this, payload
      ensures Valid() && e == Outcome(old(seen) + [y])
      ensures e.Waiting? ==> state == InPayload && seen == old(seen) + [y]
      ensures !e.Waiting? ==> state == Hunt && e.Finished?
      ensures headerErrors == old(headerErrors)
    {
      hide HeaderOf, PayloadSymbols, Place, Spread, Collected;
      ghost var s := seen + [y];
      MoreKeepsHeader(seen, y);
      SpreadStep(payloadCount);
      NotYetFinished(s, header, payloadCount, pilotCount);
      seen := s;
      if payloadCount > 0 && payloadCount % PILOT_PERIOD == 0 && pilotCount < PILOT_LEN {
        MoreKeepsCollected(old(seen), y, payloadCount);
        pilotCount := pilotCount + 1;
        return Waiting;
      }
      payload[payloadCount] := y;
      CollectNext(old(seen), y, payloadCount);
      payloadCount := payloadCount + 1;
      pilotCount := 0;
      if payloadCount == payloadLen {
        state := Hunt;
        return Finished(header, payload[..payloadLen]);
      }
      e := Waiting;
    }

    /** One symbol; found is the verdict of the correlator, which only matters while hunting. */
    method Push(y: Symbol, found: bool) returns (e: Event)
      requires Valid()
      modifies this, hdrSoft, payload
      ensures Valid()
      ensures old(state) == Hunt ==>
                e.Waiting? && state == (if found then InHeader else Hunt) && (found ==> seen == [])
      ensures old(state) != Hunt ==>
                e == Outcome(old(seen) + [y]) && (e.Waiting? ==> state != Hunt && seen == old(seen) + [y]) &&
                (!e.Waiting? ==> state == Hunt)
    {
      hide HeaderValid, PayloadValid, FailsAt, FinishesAt, Outcome;
      e := Waiting;
      match state
      case Hunt =>
        if found { MarkerFound(); }
      case InHeader => e := HeaderSymbol(y);
      case InPayload => e := PayloadSymbol(y);
    }
  }

  lemma NothingSummed()
    ensures forall j :: SoftSum([], j) == 0.0
  {
  }

  lemma SumsGrow(seen: seq<Symbol>, y: Symbol)
    requires |seen| < HDR_SYMBOLS
    ensures forall j :: 0 <= j < HEADER_BITS ==>
              SoftSum(seen + [y], j) == SoftSum(seen, j) + if |seen| % HEADER_BITS == j then y.re else 0.0
  {
    assert (seen + [y])[..|seen|] == seen;
  }

  lemma MoreKeepsHeader(seen: seq<Symbol>, y: Symbol)
    requires |seen| >= HDR_SYMBOLS
    ensures HeaderOf(seen + [y]) == HeaderOf(seen)
  {
    hide DecodeHeader, HardBits;
    assert (seen + [y])[..HDR_SYMBOLS] == seen[..HDR_SYMBOLS];
  }

  /** Before the last payload symbol the frame is not complete. */
  lemma NotYetFinished(s: seq<Symbol>, header: Header, count: nat, pilots: nat)
    requires |s| == HDR_SYMBOLS + Spread(count) + pilots + 1 && HeaderOf(s) == Some(header)
    requires count < PayloadSymbols(header.modcod)
    requires pilots == 0 || (PilotsBefore(count) && pilots <= PILOT_LEN)
    ensures FinishesAt(s) <==>
            count + 1 == PayloadSymbols(header.modcod) && (PilotsBefore(count) ==> pilots == PILOT_LEN)
    ensures !FailsAt(s)
  {
    hide HeaderOf, PayloadSymbols;
    var n := PayloadSymbols(header.modcod);
    SpreadStep(count);
    SpreadGrows(count + 1, n);
  }

  lemma SpreadGrows(a: nat, b: nat)
    requires a <= b
    ensures Spread(a) <= Spread(b) && (a < b ==> Spread(a) < Spread(b))
  {
    if 0 < a { assert (a - 1) / 512 <= (b - 1) / 512; }
  }

  lemma MoreKeepsCollected(seen: seq<Symbol>, y: Symbol, n: nat)
    requires |seen| >= HDR_SYMBOLS + Spread(n)
    ensures Collected(seen + [y], n) == Collected(seen, n)
  {
    hide Place, Spread;
    forall i | 0 <= i < n
      ensures PayloadAt(seen + [y], i, n) == PayloadAt(seen, i, n)
    {
      PlacesGrow(i, n);
    }
  }

  /** The next payload symbol is the one that has just arrived. */
  lemma CollectNext(seen: seq<Symbol>, y: Symbol, n: nat)
    requires |seen| == HDR_SYMBOLS + Place(n)
    ensures Spread(n + 1) == Place(n) + 1 && Spread(n) <= Place(n)
    ensures Collected(seen + [y], n + 1) == Collected(seen, n) + [y]
  {
    hide Place, Spread;
    SpreadStep(n);
    var s := seen + [y];
    forall i | 0 <= i < n + 1
      ensures PayloadAt(s, i, n + 1) == if i < n then PayloadAt(seen, i, n) else y
    {
      if i < n { PlacesGrow(i, n); }
    }
  }

  // ---- A whole frame ----

  /** Noise leaves the sign of every header bit's sum of repetitions right. */
  ghost predicate HeaderReadable(header: Header, y: seq<Symbol>) {
    |y| >= HDR_SYMBOLS &&
    forall j :: 0 <= j < HEADER_BITS ==> (SoftSum(y[..HDR_SYMBOLS], j) < 0.0 <==> EncodeHeader(header)[j])
  }

  /** The machine takes exactly as many symbols as the builder laid out for the MODCOD: it is still
      waiting after any shorter prefix, and then delivers every payload symbol at its own index. */
  lemma FrameIsTaken(header: Header, y: seq<Symbol>)
    requires header.modcod < MODCODS && header.kind < 4 && header.seqNo < 128
    requires ASM_SYMBOLS + |y| == FrameSymbols(header.modcod) && HeaderReadable(header, y)
    ensures forall k :: 0 <= k < |y| ==> Outcome(y[..k]) == Waiting
    ensures Outcome(y) == Finished(header, Collected(y, PayloadSymbols(header.modcod)))
  {
    hide SoftSum, EncodeHeader, DecodeHeader, PayloadSymbols, Collected;
    FrameFits(header.modcod);
    var n := PayloadSymbols(header.modcod);
    EmptySpread();
    SpreadGrows(0, n);
    assert HardBits(y[..HDR_SYMBOLS]) == EncodeHeader(header);
    DecodesIffEncoded(EncodeHeader(header), header);
    forall k | 0 <= k < |y|
      ensures Outcome(y[..k]) == Waiting
    {
      if k >= HDR_SYMBOLS { assert y[..k][..HDR_SYMBOLS] == y[..HDR_SYMBOLS]; }
    }
    assert y[..|y|] == y;
  }

  function Repeats(n: nat, j: nat): nat
    requires j < HEADER_BITS
  {
    (n + 15 - j) / 16
  }

  lemma RepeatsStep(n: nat, j: nat)
    requires j < HEADER_BITS
    ensures Repeats(n + 1, j) == Repeats(n, j) + if n % HEADER_BITS == j then 1 else 0
    ensures Repeats(0, j) == 0 && Repeats(64, j) == 4
  {
  }

  lemma {:induction false} CleanSum(bits: seq<bool>, n: nat, j: nat)
    requires |bits| == HEADER_BITS && n <= HDR_SYMBOLS && j < HEADER_BITS
    ensures SoftSum(HeaderSymbols(bits)[..n], j) == Repeats(n, j) as real * Bpsk(bits[j]).re
  {
    hide Repeats;
    RepeatsStep(if n == 0 then 0 else n - 1, j);
    if n > 0 {
      var s := HeaderSymbols(bits);
      assert s[..n][..n - 1] == s[..n - 1] && s[..n][n - 1] == s[n - 1] == Bpsk(bits[(n - 1) % HEADER_BITS]);
      CleanSum(bits, n - 1, j);
    }
  }

  /** Without noise the receiver hands back the header and the payload that went into the builder. */
  lemma {:induction false} BuiltFrameIsReceived(header: Header, payload: seq<Symbol>)
    requires header.modcod < MODCODS && header.kind < 4 && header.seqNo < 128
    requires |payload| == PayloadSymbols(header.modcod)
    ensures var y := Frame(header, payload)[ASM_SYMBOLS..];
            Outcome(y) == Finished(header, payload) && forall k :: 0 <= k < |y| ==> Outcome(y[..k]) == Waiting
  {
    hide SoftSum, EncodeHeader, PayloadSymbols, Place, Spread, Interleaved, HeaderSymbols, Outcome;
    FrameFits(header.modcod);
    InterleavedPlaces(payload);
    var bits := EncodeHeader(header);
    var f := Frame(header, payload);
    var y := f[ASM_SYMBOLS..];
    assert y[..HDR_SYMBOLS] == HeaderSymbols(bits);
    assert y[HDR_SYMBOLS..] == Interleaved(payload);
    forall j | 0 <= j < HEADER_BITS
      ensures SoftSum(HeaderSymbols(bits), j) < 0.0 <==> bits[j]
    {
      assert HeaderSymbols(bits)[..HDR_SYMBOLS] == HeaderSymbols(bits);
      CleanSum(bits, HDR_SYMBOLS, j);
      RepeatsStep(0, j);
    }
    FrameIsTaken(header, y);
    forall i | 0 <= i < |payload|
      ensures PayloadAt(y, i, |payload|) == payload[i]
    {
      PlacesGrow(i, |payload|);
      assert y[HDR_SYMBOLS + Place(i)] == y[HDR_SYMBOLS..][Place(i)];
    }
    assert Collected(y, |payload|) == payload;
  }

  /** Pushing the symbols behind a marker through the machine, until it delivers or gives up. */
  method TakeFrame(rx: Receiver, y: seq<Symbol>) returns (e: Event, used: nat)
    requires rx.Valid() && rx.state == InHeader && rx.seen == []
    modifies rx, rx.hdrSoft, rx.payload
    ensures rx.Valid() && used <= |y|
    ensures forall k :: 0 < k < used ==> Outcome(y[..k]) == Waiting
    ensures if e.Waiting? then used == |y| else 0 < used && e == Outcome(y[..used]) && rx.state == Hunt
    ensures e.Waiting? ==> forall k :: 0 < k <= |y| ==> Outcome(y[..k]) == Waiting
  {
    hide Outcome, Receiver.Valid, Receiver.HeaderValid, Receiver.PayloadValid;
    used := 0;
    e := Waiting;
    while used < |y|
      invariant used <= |y| && e.Waiting? && rx.Valid() && rx.state != Hunt && rx.seen == y[..used]
      invariant forall k :: 0 < k <= used ==> Outcome(y[..k]) == Waiting
    {
      assert y[..used] + [y[used]] == y[..used + 1];
      e := rx.Push(y[used], false);
      used := used + 1;
      if !e.Waiting? { return; }
    }
  }
}
