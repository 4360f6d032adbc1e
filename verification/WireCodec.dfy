/**
 A message grammar beside an incremental parser: how messages print, which are valid in which state, what
 may be forwarded in place of each.  If parser and grammar agree message by message, they agree on streams.
 */
module WireCodec {
  import opened Wrappers
  import opened RfbBytes
  import opened StreamParser

  datatype Codec<!M, !S> = Codec(
    valid: (S, M) -> bool,
    wire: M -> seq<byte>,
    filter: M -> Option<M>,
    next: (S, M) -> S,
    blocked: M -> bool)

  function Printed<M, S>(c: Codec<M, S>, m: Option<M>): seq<byte> {
    match m case None => [] case Some(k) => c.wire(k)
  }

  /** Fed the wire form of `m`, the parser takes exactly `m` and forwards its filtered form. */
  ghost predicate PrintsAs<M, S>(p: Parser<S>, c: Codec<M, S>, s: S, m: M, x: seq<byte>) {
    p(s, c.wire(m) + x) == Take(|c.wire(m)|, Printed(c, c.filter(m)), c.next(s, m), c.blocked(m))
  }

  /** What the parser takes is the wire form of a valid message. */
  ghost predicate Parses<M(!new), S>(p: Parser<S>, c: Codec<M, S>, s: S, b: seq<byte>)
    requires p(s, b).Take?
  {
    p(s, b).consumed <= |b| && exists m :: c.valid(s, m) && c.wire(m) == b[..p(s, b).consumed]
  }

  ghost predicate Agrees<M(!new), S(!new)>(p: Parser<S>, c: Codec<M, S>) {
    && (forall s, m, x :: c.valid(s, m) ==> PrintsAs(p, c, s, m, x))
    && (forall s, b | p(s, b).Take? :: Parses(p, c, s, b))
    && (forall s, m | c.valid(s, m) :: FilterKeepsState(c, s, m))
  }

  /** Dropping `m` leaves the state alone; a replacement is valid here and has the effect of `m`. */
  ghost predicate FilterKeepsState<M, S>(c: Codec<M, S>, s: S, m: M) {
    match c.filter(m)
    case None => c.next(s, m) == s
    case Some(k) => c.valid(s, k) && c.next(s, k) == c.next(s, m)
  }

  ghost predicate ValidList<M, S>(c: Codec<M, S>, s: S, msgs: seq<M>)
    decreases |msgs|
  {
    msgs == [] || (c.valid(s, msgs[0]) && ValidList(c, c.next(s, msgs[0]), msgs[1..]))
  }

  function PrintAll<M, S>(c: Codec<M, S>, msgs: seq<M>): seq<byte> {
    if msgs == [] then [] else c.wire(msgs[0]) + PrintAll(c, msgs[1..])
  }

  function FilterAll<M, S>(c: Codec<M, S>, msgs: seq<M>): seq<M> {
    if msgs == [] then [] else
    var later := FilterAll(c, msgs[1..]);
    match c.filter(msgs[0]) case None => later case Some(k) => [k] + later
  }

  function EndState<M, S>(c: Codec<M, S>, s: S, msgs: seq<M>): S
    decreases |msgs|
  {
    if msgs == [] then s else EndState(c, c.next(s, msgs[0]), msgs[1..])
  }

  ghost predicate AnyBlocked<M, S>(c: Codec<M, S>, msgs: seq<M>) {
    exists m <- msgs :: c.blocked(m)
  }

  lemma AnyBlockedCons<M, S>(c: Codec<M, S>, msgs: seq<M>)
    requires msgs != []
    ensures AnyBlocked(c, msgs) <==> c.blocked(msgs[0]) || AnyBlocked(c, msgs[1..])
  {
    assert forall m :: m in msgs <==> m == msgs[0] || m in msgs[1..];
  }

  lemma {:induction false} PrintAllAppend<M, S>(c: Codec<M, S>, a: seq<M>, b: seq<M>)
    ensures PrintAll(c, a + b) == PrintAll(c, a) + PrintAll(c, b)
  {
    if a == [] {
      assert a + b == b;
    } else {
      assert (a + b)[1..] == a[1..] + b;
      PrintAllAppend(c, a[1..], b);
    }
  }

  lemma {:induction false} FilterAllAppend<M, S>(c: Codec<M, S>, a: seq<M>, b: seq<M>)
    ensures FilterAll(c, a + b) == FilterAll(c, a) + FilterAll(c, b)
  {
    if a == [] {
      assert a + b == b;
    } else {
      assert (a + b)[1..] == a[1..] + b;
      FilterAllAppend(c, a[1..], b);
    }
  }

  lemma {:induction false} ValidAppend<M, S>(c: Codec<M, S>, s: S, a: seq<M>, b: seq<M>)
    requires ValidList(c, s, a) && ValidList(c, EndState(c, s, a), b)
    ensures ValidList(c, s, a + b) && EndState(c, s, a + b) == EndState(c, EndState(c, s, a), b)
    decreases |a|
  {
    if a == [] {
      assert a + b == b;
    } else {
      assert (a + b)[1..] == a[1..] + b;
      ValidAppend(c, c.next(s, a[0]), a[1..], b);
    }
  }

  /** The filtered list is itself a valid stream from the same state to the same state. */
  lemma {:induction false} FilteredValid<M(!new), S(!new)>(p: Parser<S>, c: Codec<M, S>, s: S, msgs: seq<M>)
    requires Agrees(p, c) && ValidList(c, s, msgs)
    ensures ValidList(c, s, FilterAll(c, msgs)) && EndState(c, s, FilterAll(c, msgs)) == EndState(c, s, msgs)
    decreases |msgs|
  {
    if msgs != [] {
      assert FilterKeepsState(c, s, msgs[0]);
      FilteredValid(p, c, c.next(s, msgs[0]), msgs[1..]);
    }
  }

  /** A list of messages followed by something that is not a whole message is parsed as exactly that. */
  lemma {:induction false} RunOnMessages<M(!new), S(!new)>(p: Parser<S>, c: Codec<M, S>, s: S, msgs: seq<M>, tail: seq<byte>)
    requires Progress(p) && Agrees(p, c) && ValidList(c, s, msgs)
    requires !p(EndState(c, s, msgs), tail).Take?
    ensures Run(p, s, PrintAll(c, msgs) + tail) ==
              Outcome(PrintAll(c, FilterAll(c, msgs)), tail, EndState(c, s, msgs), AnyBlocked(c, msgs),
                      p(EndState(c, s, msgs), tail).Malformed?)
    decreases |msgs|
  {
    if msgs == [] {
      assert PrintAll(c, msgs) + tail == tail;
    } else {
      var m, later := msgs[0], msgs[1..];
      var b := PrintAll(c, later) + tail;
      RunOnMessages(p, c, c.next(s, m), later, tail);
      assert PrintAll(c, msgs) + tail == c.wire(m) + b;
      RunOnFirst(p, c, s, m, b);
      AnyBlockedCons(c, msgs);
      PrintFilteredCons(c, m, later);
      assert [m] + later == msgs;
    }
  }

  lemma RunOnFirst<M(!new), S(!new)>(p: Parser<S>, c: Codec<M, S>, s: S, m: M, b: seq<byte>)
    requires Progress(p) && Agrees(p, c) && c.valid(s, m)
    ensures Run(p, s, c.wire(m) + b) == Then(Printed(c, c.filter(m)), c.blocked(m), Run(p, c.next(s, m), b))
  {
    assert PrintsAs(p, c, s, m, b);
    assert (c.wire(m) + b)[|c.wire(m)|..] == b;
  }

  lemma PrintFilteredCons<M, S>(c: Codec<M, S>, m: M, later: seq<M>)
    ensures PrintAll(c, FilterAll(c, [m] + later)) == Printed(c, c.filter(m)) + PrintAll(c, FilterAll(c, later))
  {
    assert ([m] + later)[1..] == later;
    var kept := FilterAll(c, later);
    match c.filter(m)
    case None => assert [] + PrintAll(c, kept) == PrintAll(c, kept);
    case Some(k) => assert ([k] + kept)[1..] == kept;
  }

  /** Every buffer is a list of valid messages followed by something that is not a whole message. */
  lemma {:induction false} SplitMessages<M(!new), S(!new)>(p: Parser<S>, c: Codec<M, S>, s: S, b: seq<byte>)
      returns (msgs: seq<M>, tail: seq<byte>)
    requires Progress(p) && Agrees(p, c)
    ensures ValidList(c, s, msgs) && b == PrintAll(c, msgs) + tail && !p(EndState(c, s, msgs), tail).Take?
    decreases |b|
  {
    msgs, tail := [], b;
    if p(s, b).Take? {
      var n := p(s, b).consumed;
      assert Parses(p, c, s, b);
      var m :| c.valid(s, m) && c.wire(m) == b[..n];
      var later;
      later, tail := SplitMessages(p, c, c.next(s, m), b[n..]);
      msgs := [m] + later;
      assert msgs[1..] == later;
    }
  }

  lemma PrefixThroughChunk(head: seq<byte>, tail: seq<byte>, buf: seq<byte>, chunk: seq<byte>, more: seq<byte>, rest: seq<byte>)
    requires buf + chunk == head + tail && more <= tail + rest
    ensures head + more <= buf + (chunk + rest)
  {
    assert buf + (chunk + rest) == (buf + chunk) + rest;
    assert (head + tail) + rest == head + (tail + rest);
  }

  lemma WholeThroughChunk(head: seq<byte>, tail: seq<byte>, buf: seq<byte>, chunk: seq<byte>, more: seq<byte>, left: seq<byte>,
                          rest: seq<byte>)
    requires buf + chunk == head + tail
    ensures more + left == tail + rest ==> (head + more) + left == buf + (chunk + rest)
  {
    assert buf + (chunk + rest) == (buf + chunk) + rest;
    assert (head + tail) + rest == head + (tail + rest);
    assert (head + more) + left == head + (more + left);
  }

  /** Whatever is fed, what a relay forwards is the filtered form of messages its input begins with. */
  lemma {:induction false} RelayForwards<M(!new), S(!new)>(p: Parser<S>, c: Codec<M, S>, s: S, buf: seq<byte>, chunks: seq<seq<byte>>)
      returns (msgs: seq<M>)
    requires Progress(p) && Agrees(p, c)
    ensures ValidList(c, s, msgs) && PrintAll(c, msgs) <= buf + Flatten(chunks)
    ensures var r := Relay(p, s, buf, chunks);
            && r.out == PrintAll(c, FilterAll(c, msgs))
            && (!r.failed ==> PrintAll(c, msgs) + r.rest == buf + Flatten(chunks) && r.state == EndState(c, s, msgs))
    decreases |chunks|
  {
    msgs := [];
    assert chunks == [] ==> [] + buf == buf + Flatten(chunks);
    if chunks != [] {
      var first, tail := SplitMessages(p, c, s, buf + chunks[0]);
      RunOnMessages(p, c, s, first, tail);
      var r := Run(p, s, buf + chunks[0]);
      if !r.failed {
        var later := RelayForwards(p, c, r.state, tail, chunks[1..]);
        msgs := first + later;
        ValidAppend(c, s, first, later);
        PrintAllAppend(c, first, later);
        FilterAllAppend(c, first, later);
        PrintAllAppend(c, FilterAll(c, first), FilterAll(c, later));
        PrefixThroughChunk(PrintAll(c, first), tail, buf, chunks[0], PrintAll(c, later), Flatten(chunks[1..]));
        WholeThroughChunk(PrintAll(c, first), tail, buf, chunks[0], PrintAll(c, later), Relay(p, r.state, tail, chunks[1..]).rest,
                          Flatten(chunks[1..]));
      }
    }
  }

  // -- A grammar that changes between chunks -------------------------------------------------------------

  type CodecFamily<!F, !M, !S> = F -> Codec<M, S>

  /** One list of messages for each chunk, valid under that chunk's setting where the one before left off. */
  ghost predicate ValidParts<F, M, S>(c: CodecFamily<F, M, S>, settings: seq<F>, s: S, parts: seq<seq<M>>)
    decreases |parts|
  {
    |parts| <= |settings| &&
    (parts != [] ==>
       ValidList(c(settings[0]), s, parts[0]) && ValidParts(c, settings[1..], EndState(c(settings[0]), s, parts[0]), parts[1..]))
  }

  function EndOfParts<F, M, S>(c: CodecFamily<F, M, S>, settings: seq<F>, s: S, parts: seq<seq<M>>): S
    requires |parts| <= |settings|
    decreases |parts|
  {
    if parts == [] then s else EndOfParts(c, settings[1..], EndState(c(settings[0]), s, parts[0]), parts[1..])
  }

  /** The parts as they are on the wire. */
  function WireParts<F, M, S>(c: CodecFamily<F, M, S>, settings: seq<F>, parts: seq<seq<M>>): seq<byte>
    requires |parts| <= |settings|
  {
    if parts == [] then [] else PrintAll(c(settings[0]), parts[0]) + WireParts(c, settings[1..], parts[1..])
  }

  /** What may be forwarded of each part. */
  function FilterParts<F, M, S>(c: CodecFamily<F, M, S>, settings: seq<F>, parts: seq<seq<M>>): (kept: seq<seq<M>>)
    requires |parts| <= |settings|
    ensures |kept| == |parts|
    ensures forall i | 0 <= i < |parts| :: kept[i] == FilterAll(c(settings[i]), parts[i])
  {
    if parts == [] then [] else [FilterAll(c(settings[0]), parts[0])] + FilterParts(c, settings[1..], parts[1..])
  }

  /** Whatever is fed and however the setting changes, the relay forwards the filtered form of valid parts. */
  lemma {:induction false} ChangingForwards<F(!new), M(!new), S(!new)>(
      p: Family<F, S>, c: CodecFamily<F, M, S>, settings: seq<F>, s: S, buf: seq<byte>, chunks: seq<seq<byte>>)
      returns (parts: seq<seq<M>>)
    requires AllProgress(p) && (forall f :: Agrees(p(f), c(f))) && |settings| == |chunks|
    ensures ValidParts(c, settings, s, parts) && WireParts(c, settings, parts) <= buf + Flatten(chunks)
    ensures var r := ChangingRelay(p, settings, s, buf, chunks);
            && r.out == WireParts(c, settings, FilterParts(c, settings, parts))
            && (!r.failed ==> WireParts(c, settings, parts) + r.rest == buf + Flatten(chunks)
                              && r.state == EndOfParts(c, settings, s, parts))
    decreases |chunks|
  {
    parts := [];
    assert chunks == [] ==> [] + buf == buf + Flatten(chunks);
    if chunks != [] {
      var pf, cf := p(settings[0]), c(settings[0]);
      var first, tail := SplitMessages(pf, cf, s, buf + chunks[0]);
      RunOnMessages(pf, cf, s, first, tail);
      var r := Run(pf, s, buf + chunks[0]);
      if !r.failed {
        var later := ChangingForwards(p, c, settings[1..], r.state, tail, chunks[1..]);
        parts := [first] + later;
        assert parts[1..] == later;
        FirstPart(c, settings, first, later);
        var left := ChangingRelay(p, settings[1..], r.state, tail, chunks[1..]).rest;
        var wire := WireParts(c, settings[1..], later);
        PrefixThroughChunk(PrintAll(cf, first), tail, buf, chunks[0], wire, Flatten(chunks[1..]));
        WholeThroughChunk(PrintAll(cf, first), tail, buf, chunks[0], wire, left, Flatten(chunks[1..]));
      }
    }
  }

  lemma FirstPart<F, M, S>(c: CodecFamily<F, M, S>, settings: seq<F>, first: seq<M>, later: seq<seq<M>>)
    requires |later| < |settings|
    ensures var cf, parts, after := c(settings[0]), [first] + later, settings[1..];
            && WireParts(c, settings, parts) == PrintAll(cf, first) + WireParts(c, after, later)
            && WireParts(c, settings, FilterParts(c, settings, parts)) ==
                 PrintAll(cf, FilterAll(cf, first)) + WireParts(c, after, FilterParts(c, after, later))
  {
    var parts := [first] + later;
    assert parts[1..] == later;
    var kept := FilterParts(c, settings, parts);
    assert kept[1..] == FilterParts(c, settings[1..], later);
  }
}
