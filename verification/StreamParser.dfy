/**
 A theory of incremental parsers over a byte stream, shared by both clipboard filters.

 A parser is a total function that looks at its state and its whole buffer and either waits for more
 bytes, refuses, or takes a prefix and says what to forward in its place.  `Run` is one `feed` call and
 `Relay` is the pump of the display route: feed chunk after chunk, stop at the first refusal.
 */
module StreamParser {
  import opened RfbBytes

  datatype Step<+S> =
    | NeedMore
    | Malformed
    | Take(consumed: nat, out: seq<byte>, next: S, blocked: bool)

  datatype Outcome<+S> = Outcome(out: seq<byte>, rest: seq<byte>, state: S, blocked: bool, failed: bool)

  type Parser<!S> = (S, seq<byte>) -> Step<S>

  /** Every step consumes something, and an empty buffer is never enough. */
  ghost predicate Progress<S(!new)>(p: Parser<S>) {
    forall s, b ::
      && (p(s, b).Take? ==> 0 < p(s, b).consumed <= |b|)
      && (b == [] ==> p(s, b).NeedMore?)
  }

  /** A decision, once taken, is not changed by bytes that arrive later. */
  ghost predicate Stable<S(!new)>(p: Parser<S>) {
    forall s, b, x :: !p(s, b).NeedMore? ==> p(s, b + x) == p(s, b)
  }

  /** A step looks at nothing beyond what it consumes. */
  ghost predicate Local<S(!new)>(p: Parser<S>) {
    forall s, b :: p(s, b).Take? ==>
      p(s, b).consumed <= |b| && p(s, b[..p(s, b).consumed]) == p(s, b)
  }

  /** What a step forwards would itself be forwarded unchanged, with the same effect on the state. */
  ghost predicate Replayable<S(!new)>(p: Parser<S>) {
    forall s, b, x :: p(s, b).Take? ==>
      var t := p(s, b);
      if t.out == [] then t.next == s
      else p(s, t.out + x) == Take(|t.out|, t.out, t.next, false)
  }

  ghost function Run<S(!new)>(p: Parser<S>, s: S, buf: seq<byte>): Outcome<S>
    requires Progress(p)
    decreases |buf|
  {
    match p(s, buf)
    case NeedMore => Outcome([], buf, s, false, false)
    case Malformed => Outcome([], buf, s, false, true)
    case Take(n, o, next, blocked) => Then(o, blocked, Run(p, next, buf[n..]))
  }

  /** Puts output and a blocked flag of earlier work in front of a later outcome. */
  ghost function Then<S>(out: seq<byte>, blocked: bool, later: Outcome<S>): Outcome<S> {
    later.(out := out + later.out, blocked := blocked || later.blocked)
  }

  /** One call per chunk; a call that fails loses what it had parsed, and nothing more is fed. */
  ghost function Relay<S(!new)>(p: Parser<S>, s: S, buf: seq<byte>, chunks: seq<seq<byte>>): Outcome<S>
    requires Progress(p)
    decreases |chunks|
  {
    if chunks == [] then Outcome([], buf, s, false, false) else
    var r := Run(p, s, buf + chunks[0]);
    if r.failed then r.(out := []) else
    Then(r.out, r.blocked, Relay(p, r.state, r.rest, chunks[1..]))
  }

  lemma ThenAgain<S>(sent: seq<byte>, blocked: bool, out: seq<byte>, dropped: bool, later: Outcome<S>)
    ensures Then(sent, blocked, Then(out, dropped, later)) == Then(sent + out, blocked || dropped, later)
  {
    assert sent + (out + later.out) == (sent + out) + later.out;
  }

  /** The loop of `feed`: after a step was taken, the rest of the run follows what is forwarded so far. */
  lemma RunUnfold<S(!new)>(p: Parser<S>, s: S, buf: seq<byte>, out: seq<byte>, blocked: bool)
    requires Progress(p) && p(s, buf).Take?
    ensures var t := p(s, buf);
            && t.consumed <= |buf|
            && Then(out, blocked, Run(p, s, buf)) ==
                 Then(out + t.out, blocked || t.blocked, Run(p, t.next, buf[t.consumed..]))
  {
    var t := p(s, buf);
    var later := Run(p, t.next, buf[t.consumed..]);
    assert out + (t.out + later.out) == (out + t.out) + later.out;
  }

  lemma RunStops<S(!new)>(p: Parser<S>, s: S, buf: seq<byte>, out: seq<byte>, blocked: bool)
    requires Progress(p) && !p(s, buf).Take?
    ensures Then(out, blocked, Run(p, s, buf)) == Outcome(out, buf, s, blocked, p(s, buf).Malformed?)
  {
    assert out + [] == out;
  }

  /** The loop of a pump, in the same way. */
  lemma RelayUnfold<S(!new)>(p: Parser<S>, s: S, buf: seq<byte>, chunks: seq<seq<byte>>, sent: seq<byte>, blocked: bool)
    requires Progress(p) && chunks != []
    ensures var r := Run(p, s, buf + chunks[0]);
            Then(sent, blocked, Relay(p, s, buf, chunks)) ==
              if r.failed then r.(out := sent, blocked := blocked || r.blocked)
              else Then(sent + r.out, blocked || r.blocked, Relay(p, r.state, r.rest, chunks[1..]))
  {
    var r := Run(p, s, buf + chunks[0]);
    if r.failed {
      assert sent + [] == sent;
    } else {
      var later := Relay(p, r.state, r.rest, chunks[1..]);
      assert sent + (r.out + later.out) == (sent + r.out) + later.out;
    }
  }

  lemma StaysDecided<S(!new)>(p: Parser<S>, s: S, b: seq<byte>, x: seq<byte>)
    requires Stable(p) && !p(s, b).NeedMore?
    ensures p(s, b + x) == p(s, b)
  {
  }

  lemma {:induction false} RunAppend<S(!new)>(p: Parser<S>, s: S, a: seq<byte>, b: seq<byte>)
    requires Progress(p) && Stable(p)
    ensures var r := Run(p, s, a);
            Run(p, s, a + b) ==
              if r.failed then r.(rest := r.rest + b) else Then(r.out, r.blocked, Run(p, r.state, r.rest + b))
    decreases |a|
  {
    var t := p(s, a);
    if t.Take? {
      StaysDecided(p, s, a, b);
      assert (a + b)[t.consumed..] == a[t.consumed..] + b;
      RunAppend(p, t.next, a[t.consumed..], b);
      var r := Run(p, t.next, a[t.consumed..]);
      var later := Run(p, r.state, r.rest + b);
      ThenAgain(t.out, t.blocked, r.out, r.blocked, later);
    } else if t.Malformed? {
      StaysDecided(p, s, a, b);
    } else {
      var later := Run(p, s, a + b);
      assert [] + later.out == later.out;
    }
  }

  /** A parser that did not fail stopped because it waits for more. */
  lemma {:induction false} RunSettles<S(!new)>(p: Parser<S>, s: S, buf: seq<byte>)
    requires Progress(p)
    ensures var r := Run(p, s, buf);
            if r.failed then p(r.state, r.rest).Malformed? else p(r.state, r.rest).NeedMore?
    decreases |buf|
  {
    var t := p(s, buf);
    if t.Take? {
      RunSettles(p, t.next, buf[t.consumed..]);
    }
  }

  /**
   Chunking independence: however the stream is cut up, the relay fails iff the stream taken whole fails,
   ends in the same state, and forwards the same bytes (a prefix of them when it fails).
   */
  lemma {:induction false} RelayAgreesWithWhole<S(!new)>(p: Parser<S>, s: S, buf: seq<byte>, chunks: seq<seq<byte>>)
    requires Progress(p) && Stable(p) && p(s, buf).NeedMore?
    ensures var whole := Run(p, s, buf + Flatten(chunks));
            var relay := Relay(p, s, buf, chunks);
            && relay.failed == whole.failed
            && relay.state == whole.state
            && relay.blocked == whole.blocked
            && (if whole.failed then relay.out <= whole.out && relay.rest <= whole.rest else relay == whole)
    decreases |chunks|
  {
    if chunks == [] {
      assert buf + Flatten(chunks) == buf;
    } else {
      var later := Flatten(chunks[1..]);
      assert buf + Flatten(chunks) == (buf + chunks[0]) + later;
      RunAppend(p, s, buf + chunks[0], later);
      var r := Run(p, s, buf + chunks[0]);
      if !r.failed {
        RunSettles(p, s, buf + chunks[0]);
        RelayAgreesWithWhole(p, r.state, r.rest, chunks[1..]);
      }
    }
  }

  /** Two ways of cutting up one stream cannot be told apart, except by how much a failing one forwarded. */
  lemma {:induction false} ChunkingIndependent<S(!new)>(p: Parser<S>, s: S, buf: seq<byte>, c1: seq<seq<byte>>, c2: seq<seq<byte>>)
    requires Progress(p) && Stable(p) && p(s, buf).NeedMore?
    requires Flatten(c1) == Flatten(c2)
    ensures var r1, r2 := Relay(p, s, buf, c1), Relay(p, s, buf, c2);
            && r1.failed == r2.failed && r1.state == r2.state && r1.blocked == r2.blocked
            && (!r1.failed ==> r1 == r2)
            && (r1.out <= r2.out || r2.out <= r1.out)
  {
    RelayAgreesWithWhole(p, s, buf, c1);
    RelayAgreesWithWhole(p, s, buf, c2);
    PrefixesOfOne(Relay(p, s, buf, c1).out, Relay(p, s, buf, c2).out, Run(p, s, buf + Flatten(c1)).out);
  }

  lemma PrefixesOfOne(a: seq<byte>, b: seq<byte>, c: seq<byte>)
    requires a <= c && b <= c
    ensures a <= b || b <= a
  {
    if |a| <= |b| {
      assert a == b[..|a|];
    } else {
      assert b == a[..|b|];
    }
  }

  function Singles(data: seq<byte>): seq<seq<byte>> {
    if data == [] then [] else [[data[0]]] + Singles(data[1..])
  }

  lemma {:induction false} SinglesFlatten(data: seq<byte>)
    ensures Flatten(Singles(data)) == data
  {
    if data != [] {
      SinglesFlatten(data[1..]);
      var singles := Singles(data);
      assert singles == [[data[0]]] + Singles(data[1..]);
      assert singles[0] == [data[0]] && singles[1..] == Singles(data[1..]);
      assert Flatten(singles) == [data[0]] + data[1..];
    }
  }

  /** A step that could not be taken without the last byte takes the last byte. */
  lemma TakesLastByte<S(!new)>(p: Parser<S>, s: S, buf: seq<byte>, c: byte)
    requires Progress(p) && Stable(p) && Local(p) && p(s, buf).NeedMore? && p(s, buf + [c]).Take?
    ensures p(s, buf + [c]).consumed == |buf| + 1
  {
    var k := p(s, buf + [c]).consumed;
    if k <= |buf| {
      var pre, more := buf[..k], buf[k..];
      assert (buf + [c])[..k] == pre && buf == pre + more;
      StaysDecided(p, s, pre, more);
    }
  }

  /** One more byte completes at most one message, and then uses up the buffer. */
  lemma OneByteOneStep<S(!new)>(p: Parser<S>, s: S, buf: seq<byte>, c: byte)
    requires Progress(p) && Stable(p) && Local(p) && p(s, buf).NeedMore?
    ensures var t := p(s, buf + [c]);
            var r := Run(p, s, buf + [c]);
            && (t.Take? ==> t.consumed == |buf| + 1 && r == Outcome(t.out, [], t.next, t.blocked, false))
            && (r.failed ==> r.out == [])
  {
    var b := buf + [c];
    var t := p(s, b);
    if t.Take? {
      TakesLastByte(p, s, buf, c);
      assert b[t.consumed..] == [];
      assert t.out + [] == t.out;
    }
  }

  /**
   The prefix bound is tight: fed one byte at a time, a relay forwards everything the whole stream
   yields, failing or not.
   */
  lemma {:induction false} BytewiseForwardsAll<S(!new)>(p: Parser<S>, s: S, buf: seq<byte>, data: seq<byte>)
    requires Progress(p) && Stable(p) && Local(p) && p(s, buf).NeedMore?
    ensures Relay(p, s, buf, Singles(data)).out == Run(p, s, buf + data).out
    decreases |data|
  {
    if data == [] {
      assert buf + data == buf;
    } else {
      var r := Run(p, s, buf + [data[0]]);
      RelayFirst(p, s, buf, data);
      RunFirst(p, s, buf, data);
      if r.failed {
        OneByteOneStep(p, s, buf, data[0]);
      } else {
        RunSettles(p, s, buf + [data[0]]);
        BytewiseForwardsAll(p, r.state, r.rest, data[1..]);
      }
    }
  }

  lemma RunFirst<S(!new)>(p: Parser<S>, s: S, buf: seq<byte>, data: seq<byte>)
    requires Progress(p) && Stable(p) && data != []
    ensures var r := Run(p, s, buf + [data[0]]);
            Run(p, s, buf + data) ==
              if r.failed then r.(rest := r.rest + data[1..]) else Then(r.out, r.blocked, Run(p, r.state, r.rest + data[1..]))
  {
    assert buf + data == (buf + [data[0]]) + data[1..];
    RunAppend(p, s, buf + [data[0]], data[1..]);
  }

  lemma RelayFirst<S(!new)>(p: Parser<S>, s: S, buf: seq<byte>, data: seq<byte>)
    requires Progress(p) && data != []
    ensures var r := Run(p, s, buf + [data[0]]);
            Relay(p, s, buf, Singles(data)) ==
              if r.failed then r.(out := []) else Then(r.out, r.blocked, Relay(p, r.state, r.rest, Singles(data[1..])))
  {
    var singles := Singles(data);
    assert singles == [[data[0]]] + Singles(data[1..]);
    assert singles[0] == [data[0]] && singles[1..] == Singles(data[1..]);
  }

  lemma OneChunk<S(!new)>(p: Parser<S>, s: S, buf: seq<byte>, data: seq<byte>)
    requires Progress(p)
    ensures var r := Run(p, s, buf + data);
            Relay(p, s, buf, [data]).out == (if r.failed then [] else r.out) && Flatten([data]) == data
  {
    var chunks := [data];
    assert chunks[1..] == [] && data + [] == data;
    var r := Run(p, s, buf + data);
    assert r.out + [] == r.out;
  }

  /** Every way of cutting `data` up forwards the same bytes. */
  ghost predicate ForwardsAlike<S(!new)>(p: Parser<S>, s: S, buf: seq<byte>, data: seq<byte>)
    requires Progress(p)
  {
    forall c1, c2 | Flatten(c1) == data && Flatten(c2) == data :: Relay(p, s, buf, c1).out == Relay(p, s, buf, c2).out
  }

  /** Exactly when the chunking does not matter: iff the stream does not fail, or forwards nothing before it does. */
  lemma ForwardsAlikeIff<S(!new)>(p: Parser<S>, s: S, buf: seq<byte>, data: seq<byte>)
    requires Progress(p) && Stable(p) && Local(p) && p(s, buf).NeedMore?
    ensures ForwardsAlike(p, s, buf, data) <==> !Run(p, s, buf + data).failed || Run(p, s, buf + data).out == []
  {
    var whole := Run(p, s, buf + data);
    if !whole.failed || whole.out == [] {
      forall c1, c2 | Flatten(c1) == data && Flatten(c2) == data ensures Relay(p, s, buf, c1).out == Relay(p, s, buf, c2).out {
        RelayAgreesWithWhole(p, s, buf, c1);
        RelayAgreesWithWhole(p, s, buf, c2);
      }
    } else {
      OneChunk(p, s, buf, data);
      SinglesFlatten(data);
      BytewiseForwardsAll(p, s, buf, data);
      assert Relay(p, s, buf, [data]).out != Relay(p, s, buf, Singles(data)).out;
    }
  }

  /** `o` passes a parser in state `s` untouched. */
  ghost predicate Passes<S(!new)>(p: Parser<S>, s: S, o: seq<byte>, s': S)
    requires Progress(p)
  {
    Run(p, s, o) == Outcome(o, [], s', false, false)
  }

  lemma PassesAppend<S(!new)>(p: Parser<S>, s: S, o1: seq<byte>, s1: S, o2: seq<byte>, s2: S)
    requires Progress(p) && Stable(p)
    requires Passes(p, s, o1, s1) && Passes(p, s1, o2, s2)
    ensures Passes(p, s, o1 + o2, s2)
  {
    RunAppend(p, s, o1, o2);
    assert [] + o2 == o2;
  }

  /** What one call forwards would be forwarded unchanged by a second parser in the same state. */
  lemma {:induction false} RunIdempotent<S(!new)>(p: Parser<S>, s: S, buf: seq<byte>)
    requires Progress(p) && Stable(p) && Replayable(p)
    ensures Passes(p, s, Run(p, s, buf).out, Run(p, s, buf).state)
    decreases |buf|
  {
    var t := p(s, buf);
    if t.Take? {
      RunIdempotent(p, t.next, buf[t.consumed..]);
      var r := Run(p, t.next, buf[t.consumed..]);
      if t.out == [] {
        assert t.out + r.out == r.out;
      } else {
        assert p(s, t.out + r.out) == Take(|t.out|, t.out, t.next, false);
        assert (t.out + r.out)[|t.out|..] == r.out;
      }
    }
  }

  /** Filtering is idempotent over any relay, malformed streams included. */
  lemma {:induction false} RelayIdempotent<S(!new)>(p: Parser<S>, s: S, buf: seq<byte>, chunks: seq<seq<byte>>) returns (s': S)
    requires Progress(p) && Stable(p) && Replayable(p)
    ensures Passes(p, s, Relay(p, s, buf, chunks).out, s')
    decreases |chunks|
  {
    s' := s;
    if chunks != [] {
      var r := Run(p, s, buf + chunks[0]);
      if !r.failed {
        RunIdempotent(p, s, buf + chunks[0]);
        s' := RelayIdempotent(p, r.state, r.rest, chunks[1..]);
        PassesAppend(p, s, r.out, r.state, Relay(p, r.state, r.rest, chunks[1..]).out, s');
      }
    }
  }

  // -- A parser that changes between chunks --------------------------------------------------------------

  /** A parser for each value of a setting that somebody else may change between two calls. */
  type Family<!F, !S> = F -> Parser<S>

  ghost predicate AllProgress<F(!new), S(!new)>(family: Family<F, S>) {
    forall f :: Progress(family(f))
  }

  /** The relay when `settings[i]` is in force as chunk `i` arrives. */
  ghost function ChangingRelay<F(!new), S(!new)>(family: Family<F, S>, settings: seq<F>, s: S, buf: seq<byte>, chunks: seq<seq<byte>>): Outcome<S>
    requires AllProgress(family) && |settings| == |chunks|
    decreases |chunks|
  {
    if chunks == [] then Outcome([], buf, s, false, false) else
    var r := Run(family(settings[0]), s, buf + chunks[0]);
    if r.failed then r.(out := []) else
    Then(r.out, r.blocked, ChangingRelay(family, settings[1..], r.state, r.rest, chunks[1..]))
  }

  lemma ChangingUnfold<F(!new), S(!new)>(family: Family<F, S>, settings: seq<F>, s: S, buf: seq<byte>, chunks: seq<seq<byte>>,
                                         sent: seq<byte>, blocked: bool)
    requires AllProgress(family) && |settings| == |chunks| && chunks != []
    ensures var r := Run(family(settings[0]), s, buf + chunks[0]);
            Then(sent, blocked, ChangingRelay(family, settings, s, buf, chunks)) ==
              if r.failed then r.(out := sent, blocked := blocked || r.blocked)
              else Then(sent + r.out, blocked || r.blocked, ChangingRelay(family, settings[1..], r.state, r.rest, chunks[1..]))
  {
    var r := Run(family(settings[0]), s, buf + chunks[0]);
    if r.failed {
      assert ChangingRelay(family, settings, s, buf, chunks) == r.(out := []);
      assert sent + [] == sent;
    } else {
      var later := ChangingRelay(family, settings[1..], r.state, r.rest, chunks[1..]);
      assert ChangingRelay(family, settings, s, buf, chunks) == Then(r.out, r.blocked, later);
      ThenAgain(sent, blocked, r.out, r.blocked, later);
    }
  }

  /** With one setting throughout it is the relay of that parser. */
  lemma {:induction false} UnchangingRelay<F(!new), S(!new)>(family: Family<F, S>, f: F, settings: seq<F>, s: S, buf: seq<byte>,
                                                             chunks: seq<seq<byte>>)
    requires AllProgress(family) && |settings| == |chunks| && forall i | 0 <= i < |settings| :: settings[i] == f
    ensures ChangingRelay(family, settings, s, buf, chunks) == Relay(family(f), s, buf, chunks)
    decreases |chunks|
  {
    if chunks != [] {
      var r := Run(family(f), s, buf + chunks[0]);
      if !r.failed {
        UnchangingRelay(family, f, settings[1..], r.state, r.rest, chunks[1..]);
      }
    }
  }

  /** What is forwarded of each chunk, in turn. */
  ghost function ChangingOutputs<F(!new), S(!new)>(family: Family<F, S>, settings: seq<F>, s: S, buf: seq<byte>, chunks: seq<seq<byte>>):
      (outs: seq<seq<byte>>)
    requires AllProgress(family) && |settings| == |chunks|
    ensures |outs| == |chunks|
    decreases |chunks|
  {
    if chunks == [] then [] else
    var r := Run(family(settings[0]), s, buf + chunks[0]);
    if r.failed then seq(|chunks|, _ => [])
    else [r.out] + ChangingOutputs(family, settings[1..], r.state, r.rest, chunks[1..])
  }

  lemma {:induction false} NothingForwarded<F(!new), S(!new)>(family: Family<F, S>, settings: seq<F>, s: S, n: nat)
    requires AllProgress(family) && |settings| == n
    ensures var none: seq<seq<byte>> := seq(n, _ => []);
            Flatten(none) == [] && ChangingRelay(family, settings, s, [], none) == Outcome([], [], s, false, false)
    decreases n
  {
    var none: seq<seq<byte>> := seq(n, _ => []);
    if n > 0 {
      NothingForwarded(family, settings[1..], s, n - 1);
      var later: seq<seq<byte>> := seq(n - 1, _ => []);
      assert none[1..] == later && none[0] == [];
      var empty: seq<byte> := [];
      assert empty + none[0] == empty;
      assert family(settings[0])(s, empty).NeedMore?;
    }
  }

  /** Filtering again, chunk by chunk under the same settings, changes nothing, whatever was fed at first. */
  lemma {:induction false} ChangingIdempotent<F(!new), S(!new)>(family: Family<F, S>, settings: seq<F>, s: S, buf: seq<byte>,
                                                                chunks: seq<seq<byte>>) returns (s': S)
    requires AllProgress(family) && |settings| == |chunks|
    requires forall f :: Stable(family(f)) && Replayable(family(f))
    ensures var outs := ChangingOutputs(family, settings, s, buf, chunks);
            && Flatten(outs) == ChangingRelay(family, settings, s, buf, chunks).out
            && ChangingRelay(family, settings, s, [], outs) == Outcome(Flatten(outs), [], s', false, false)
    decreases |chunks|
  {
    s' := s;
    if chunks != [] {
      var p := family(settings[0]);
      var r := Run(p, s, buf + chunks[0]);
      if r.failed {
        NothingForwarded(family, settings, s, |chunks|);
      } else {
        RunIdempotent(p, s, buf + chunks[0]);
        s' := ChangingIdempotent(family, settings[1..], r.state, r.rest, chunks[1..]);
        var later := ChangingOutputs(family, settings[1..], r.state, r.rest, chunks[1..]);
        var outs := ChangingOutputs(family, settings, s, buf, chunks);
        assert outs == [r.out] + later && outs[0] == r.out && outs[1..] == later;
        assert [] + outs[0] == r.out;
        assert Run(p, s, [] + outs[0]) == Outcome(r.out, [], r.state, false, false);
      }
    }
  }
}
