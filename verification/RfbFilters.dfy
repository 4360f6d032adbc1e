/**
 The two filter objects and the pumps that drive them.  Each method is tied to the step functions of
 `RfbClient` and `RfbServer`; the theorems about streams are stated on what the pumps send.
 */
module RfbFilters {
  import opened Wrappers
  import opened RfbBytes
  import opened RfbPixels
  import opened StreamParser
  import opened Clipboard
  import Client = RfbClient
  import Server = RfbServer

  datatype RfbProtocolError = RfbProtocolError

  /** Shared by the two filters of one session; set by the client's SetPixelFormat only. */
  class PixelFormatTracker {
    var bytesPerPixel: Option<nat>

    constructor ()
      ensures bytesPerPixel == None
    {
      bytesPerPixel := None;
    }
  }

  lemma NextWord(out: seq<byte>, encodings: seq<int>, i: nat)
    requires i < |encodings| && Client.AllI32(encodings)
    ensures out + EncI32(encodings[i]) + Client.Words(encodings[i + 1..]) == out + Client.Words(encodings[i..])
  {
    var rest := encodings[i..];
    assert rest[0] == encodings[i] && rest[1..] == encodings[i + 1..];
    assert Client.Words(rest) == EncI32(encodings[i]) + Client.Words(encodings[i + 1..]);
  }

  method BuildSetEncodings(encodings: seq<int>) returns (out: seq<byte>)
    requires |encodings| < 65536 && Client.AllI32(encodings)
    ensures out == [2, 0] + EncU16(|encodings|) + Client.Words(encodings)
  {
    out := [2, 0] + EncU16(|encodings|);
    ghost var whole := out + Client.Words(encodings);
    assert encodings[0..] == encodings;
    for i := 0 to |encodings|
      invariant out + Client.Words(encodings[i..]) == whole
    {
      NextWord(out, encodings, i);
      out := out + EncI32(encodings[i]);
    }
    assert encodings[|encodings|..] == [] && out + [] == out;
  }

  method BuildForcedEncodings() returns (out: seq<byte>)
    ensures out == Client.FORCED_WIRE
  {
    out := BuildSetEncodings([1, 0]);
    Client.ForcedWords();
  }

  // -- Client to server --------------------------------------------------------------------------------

  /** What `pump_ws_to_agent` sends, as a function of the filter's state and the chunks it receives. */
  ghost function ClientRelay(cfg: Client.Config, fmt: Option<nat>, buf: seq<byte>, chunks: seq<seq<byte>>): Outcome<Option<nat>>
  {
    if cfg.Passive() then Outcome(Flatten(chunks), buf, fmt, false, false)
    else Client.ClientParserSound(cfg); Relay(Client.ClientParser(cfg), fmt, buf, chunks)
  }

  class ClientToServerFilter {
    const blockCutText: bool
    const restrict: bool
    const pixelFormat: PixelFormatTracker
    var buf: seq<byte>
    var blockedOnce: bool

    function Cfg(): Client.Config {
      Client.Config(blockCutText, restrict)
    }

    constructor (blockCutText: bool, restrict: bool, pixelFormat: PixelFormatTracker)
      ensures this.blockCutText == blockCutText && this.restrict == restrict && this.pixelFormat == pixelFormat
      ensures buf == [] && !blockedOnce
    {
      this.blockCutText := blockCutText;
      this.restrict := restrict;
      this.pixelFormat := pixelFormat;
      buf := [];
      blockedOnce := false;
    }

    method Consume(n: nat) returns (raw: seq<byte>)
      requires n <= |buf|
      modifies this`buf
      ensures raw == old(buf)[..n] && buf == old(buf)[n..]
    {
      raw := buf[..n];
      buf := buf[n..];
    }

    /** The state after a step, as `TakeOne` and its parts leave it. */
    twostate predicate Stepped(step: Step<Option<nat>>, new r: Result<Option<seq<byte>>, RfbProtocolError>)
      reads this, pixelFormat
    {
      match step
      case NeedMore => r == Ok(None) && unchanged(this) && unchanged(pixelFormat)
      case Malformed => r.Err? && unchanged(this) && unchanged(pixelFormat)
      case Take(n, out, next, blocked) =>
        && r == Ok(Some(out))
        && n <= |old(buf)| && buf == old(buf)[n..]
        && pixelFormat.bytesPerPixel == next
        && blockedOnce == (old(blockedOnce) || blocked)
    }

    method TakeSetPixelFormat() returns (r: Result<Option<seq<byte>>, RfbProtocolError>)
      requires buf != [] && buf[0] == 0
      modifies this`buf, pixelFormat
      ensures Stepped(Client.ClientStep(Cfg(), old(pixelFormat.bytesPerPixel), old(buf)), r)
    {
      if |buf| < 20 {
        return Ok(None);
      }
      var bpp := buf[4];
      pixelFormat.bytesPerPixel := Some(bpp / 8);
      var raw := Consume(20);
      r := Ok(Some(raw));
    }

    method TakeSetEncodings() returns (r: Result<Option<seq<byte>>, RfbProtocolError>)
      requires buf != [] && buf[0] == 2
      modifies this`buf
      ensures Stepped(Client.ClientStep(Cfg(), old(pixelFormat.bytesPerPixel), old(buf)), r)
    {
      if |buf| < 4 {
        return Ok(None);
      }
      var count := U16(buf[2], buf[3]);
      var total := 4 + 4 * count;
      if |buf| < total {
        return Ok(None);
      }
      var raw := Consume(total);
      if restrict {
        raw := BuildForcedEncodings();
      }
      r := Ok(Some(raw));
    }

    method TakeCutText() returns (r: Result<Option<seq<byte>>, RfbProtocolError>)
      requires buf != [] && buf[0] == 6
      modifies this`buf, this`blockedOnce
      ensures Stepped(Client.ClientStep(Cfg(), old(pixelFormat.bytesPerPixel), old(buf)), r)
    {
      if |buf| < 8 {
        return Ok(None);
      }
      var total := 8 + Abs(I32(buf[4..8]));
      if |buf| < total {
        return Ok(None);
      }
      var raw := Consume(total);
      if blockCutText {
        blockedOnce := true;
        return Ok(Some([]));
      }
      r := Ok(Some(raw));
    }

    method TakeOne() returns (r: Result<Option<seq<byte>>, RfbProtocolError>)
      modifies this`buf, this`blockedOnce, pixelFormat
      ensures Stepped(Client.ClientStep(Cfg(), old(pixelFormat.bytesPerPixel), old(buf)), r)
    {
      if |buf| == 0 {
        return Ok(None);
      }
      var msgType := buf[0];
      if msgType == 0 {
        r := TakeSetPixelFormat();
      } else if msgType == 2 {
        r := TakeSetEncodings();
      } else if msgType == 6 {
        r := TakeCutText();
      } else {
        r := TakePlain();
      }
    }

    /** The messages the filter never alters: only their length matters. */
    method TakePlain() returns (r: Result<Option<seq<byte>>, RfbProtocolError>)
      requires buf != [] && buf[0] != 0 && buf[0] != 2 && buf[0] != 6
      modifies this`buf
      ensures Stepped(Client.ClientStep(Cfg(), old(pixelFormat.bytesPerPixel), old(buf)), r)
    {
      var msgType := buf[0];
      var total: nat;
      if msgType == 3 || msgType == 150 {
        total := 10;
      } else if msgType == 4 {
        total := 8;
      } else if msgType == 5 {
        total := 6;
      } else if msgType == 248 {
        if |buf| < 9 {
          return Ok(None);
        }
        total := 9 + buf[8] as nat;
      } else if msgType == 250 {
        total := 4;
      } else if msgType == 251 {
        if |buf| < 8 {
          return Ok(None);
        }
        total := 8 + 16 * (buf[6] as nat);
      } else if msgType == 255 {
        if |buf| < 2 {
          return Ok(None);
        }
        if buf[1] != 0 {
          return Err(RfbProtocolError);
        }
        total := 12;
      } else {
        return Err(RfbProtocolError);
      }
      if |buf| < total {
        return Ok(None);
      }
      var raw := Consume(total);
      r := Ok(Some(raw));
    }

    /** One turn of the loop of `Feed`: `whole` is what the call amounts to, `out` and `dropped` what it did so far. */
    method FeedTurn(ghost whole: Outcome<Option<nat>>, ghost out: seq<byte>, ghost dropped: bool)
        returns (r: Result<Option<seq<byte>>, RfbProtocolError>, ghost dropped': bool)
      requires Progress(Client.ClientParser(Cfg())) && (dropped ==> blockedOnce)
      requires whole == Then(out, dropped, Run(Client.ClientParser(Cfg()), pixelFormat.bytesPerPixel, buf))
      modifies this`buf, this`blockedOnce, pixelFormat
      ensures r.Ok? && r.value.Some? ==>
                && |buf| < |old(buf)|
                && whole == Then(out + r.value.value, dropped', Run(Client.ClientParser(Cfg()), pixelFormat.bytesPerPixel, buf))
      ensures r.Err? || r.value.None? ==> whole == Outcome(out, buf, pixelFormat.bytesPerPixel, dropped', r.Err?)
      ensures (dropped ==> dropped') && blockedOnce == (old(blockedOnce) || dropped')
    {
      ghost var p := Client.ClientParser(Cfg());
      ghost var step := p(pixelFormat.bytesPerPixel, buf);
      dropped' := dropped;
      if step.Take? {
        RunUnfold(p, pixelFormat.bytesPerPixel, buf, out, dropped);
        dropped' := dropped || step.blocked;
      } else {
        RunStops(p, pixelFormat.bytesPerPixel, buf, out, dropped);
      }
      r := TakeOne();
    }

    method Feed(data: seq<byte>) returns (r: Result<seq<byte>, RfbProtocolError>)
      modifies this`buf, this`blockedOnce, pixelFormat
      ensures Cfg().Passive() ==> r == Ok(data) && unchanged(this) && unchanged(pixelFormat)
      ensures Progress(Client.ClientParser(Cfg()))
      ensures !Cfg().Passive() ==>
                var o := Run(Client.ClientParser(Cfg()), old(pixelFormat.bytesPerPixel), old(buf) + data);
                && (if o.failed then r.Err? else r == Ok(o.out))
                && buf == o.rest && pixelFormat.bytesPerPixel == o.state
                && blockedOnce == (old(blockedOnce) || o.blocked)
    {
      Client.ClientParserSound(Cfg());
      if !blockCutText && !restrict {
        return Ok(data);
      }
      buf := buf + data;
      var out: seq<byte> := [];
      ghost var whole := Run(Client.ClientParser(Cfg()), pixelFormat.bytesPerPixel, buf);
      ghost var dropped := false;
      assert whole == Then([], false, whole);
      while true
        invariant whole == Then(out, dropped, Run(Client.ClientParser(Cfg()), pixelFormat.bytesPerPixel, buf))
        invariant blockedOnce == (old(blockedOnce) || dropped)
        decreases |buf|
      {
        var msg;
        msg, dropped := FeedTurn(whole, out, dropped);
        if msg.Err? {
          return Err(msg.error);
        }
        if msg.value.None? {
          break;
        }
        out := out + msg.value.value;
      }
      r := Ok(out);
    }
  }

  /** `pump_ws_to_agent`: relay until the stream ends or the filter refuses. */
  method PumpToAgent(f: ClientToServerFilter, chunks: seq<seq<byte>>) returns (sent: seq<byte>, tornDown: bool)
    modifies f`buf, f`blockedOnce, f.pixelFormat
    ensures var o := ClientRelay(f.Cfg(), old(f.pixelFormat.bytesPerPixel), old(f.buf), chunks);
            && sent == o.out && tornDown == o.failed
            && f.blockedOnce == (old(f.blockedOnce) || o.blocked)
            && f.buf == o.rest && f.pixelFormat.bytesPerPixel == o.state
  {
    sent, tornDown := [], false;
    ghost var whole := ClientRelay(f.Cfg(), f.pixelFormat.bytesPerPixel, f.buf, chunks);
    ghost var dropped := false;
    assert chunks[0..] == chunks && whole == Then([], false, whole);
    for i := 0 to |chunks|
      invariant whole == Then(sent, dropped, ClientRelay(f.Cfg(), f.pixelFormat.bytesPerPixel, f.buf, chunks[i..]))
      invariant f.blockedOnce == (old(f.blockedOnce) || dropped)
      invariant !tornDown
    {
      assert chunks[i..][1..] == chunks[i + 1..];
      if f.Cfg().Passive() {
        assert sent + (chunks[i] + Flatten(chunks[i + 1..])) == (sent + chunks[i]) + Flatten(chunks[i + 1..]);
      } else {
        Client.ClientParserSound(f.Cfg());
        RelayUnfold(Client.ClientParser(f.Cfg()), f.pixelFormat.bytesPerPixel, f.buf, chunks[i..], sent, dropped);
        dropped := dropped || Run(Client.ClientParser(f.Cfg()), f.pixelFormat.bytesPerPixel, f.buf + chunks[i]).blocked;
      }
      var forward := f.Feed(chunks[i]);
      if forward.Err? {
        tornDown := true;
        return;
      }
      sent := sent + forward.value;
    }
    assert chunks[|chunks|..] == [] && sent + [] == sent;
  }

  /** For either setting and any two ways of cutting one stream up (see `ChunkingIndependent`). */
  lemma ClientChunking(cfg: Client.Config, fmt: Option<nat>, c1: seq<seq<byte>>, c2: seq<seq<byte>>)
    requires Flatten(c1) == Flatten(c2)
    ensures var r1, r2 := ClientRelay(cfg, fmt, [], c1), ClientRelay(cfg, fmt, [], c2);
            && r1.failed == r2.failed && r1.state == r2.state && r1.blocked == r2.blocked
            && (!r1.failed ==> r1 == r2)
            && (r1.out <= r2.out || r2.out <= r1.out)
  {
    if !cfg.Passive() {
      Client.ClientParserSound(cfg);
      ChunkingIndependent(Client.ClientParser(cfg), fmt, [], c1, c2);
    }
  }

  /**
   What the client-side pump sends, in the two settings themselves: for any list of messages in any chunks,
   the list without cut text when that is blocked, and with every SetEncodings asking for CopyRect and Raw
   when encodings are restricted; nothing stays behind and the pump is not torn down.
   */
  lemma ClientSendsPermitted(block: bool, restrict: bool, fmt: Option<nat>, msgs: seq<Client.ClientMsg>, chunks: seq<seq<byte>>)
    requires (forall m <- msgs :: Client.WellFormed(m)) && Flatten(chunks) == Client.WireAll(msgs)
    ensures var o := ClientRelay(Client.Config(block, restrict), fmt, [], chunks);
            o.out == Client.WireAll(Client.Permitted(block, restrict, msgs)) && o.rest == [] && !o.failed
  {
    var cfg := Client.Config(block, restrict);
    if block || restrict {
      assert !cfg.Passive();
      Client.ClientParserSound(cfg);
      Client.PrintAllIsWireAll(cfg, msgs);
      Client.FilterAllIsPermitted(cfg, msgs);
      Client.PrintAllIsWireAll(cfg, Client.Permitted(block, restrict, msgs));
      Client.ClientRunOnMessages(cfg, fmt, msgs, []);
      assert Client.WireAll(msgs) + [] == Client.WireAll(msgs) && [] + Flatten(chunks) == Flatten(chunks);
      RelayAgreesWithWhole(Client.ClientParser(cfg), fmt, [], chunks);
    } else {
      assert cfg.Passive();
      Client.PermittedAll(msgs);
    }
  }

  /** And on arbitrary bytes: with either setting, only permitted forms of complete messages the input begins with. */
  lemma ClientSendsOnlyPermitted(block: bool, restrict: bool, fmt: Option<nat>, chunks: seq<seq<byte>>) returns (msgs: seq<Client.ClientMsg>)
    requires block || restrict
    ensures (forall m <- msgs :: Client.WellFormed(m)) && Client.WireAll(msgs) <= Flatten(chunks)
    ensures ClientRelay(Client.Config(block, restrict), fmt, [], chunks).out == Client.WireAll(Client.Permitted(block, restrict, msgs))
    ensures block ==> forall m <- Client.Permitted(block, restrict, msgs) :: !m.ClientCutText?
    ensures restrict ==> forall m <- Client.Permitted(block, restrict, msgs) :: m.SetEncodings? ==> m == Client.SetEncodings(0, [1, 0])
  {
    var cfg := Client.Config(block, restrict);
    assert !cfg.Passive();
    var fmt';
    msgs, fmt' := Client.ClientNoLeak(cfg, fmt, [], chunks);
    Client.PrintAllIsWireAll(cfg, msgs);
    Client.FilterAllIsPermitted(cfg, msgs);
    Client.PrintAllIsWireAll(cfg, Client.Permitted(block, restrict, msgs));
    Client.ValidAreWellFormed(cfg, fmt, msgs);
    PermittedIsClean(block, restrict, msgs);
    assert [] + Flatten(chunks) == Flatten(chunks);
  }

  lemma {:induction false} PermittedIsClean(block: bool, restrict: bool, msgs: seq<Client.ClientMsg>)
    ensures block ==> forall m <- Client.Permitted(block, restrict, msgs) :: !m.ClientCutText?
    ensures restrict ==> forall m <- Client.Permitted(block, restrict, msgs) :: m.SetEncodings? ==> m == Client.SetEncodings(0, [1, 0])
  {
    if msgs != [] {
      PermittedIsClean(block, restrict, msgs[1..]);
    }
  }

  const SMALL_CUT_TEXT: Client.ClientMsg := Client.ClientCutText([0, 0, 0], false, [])
  const TIGHT_ONLY: Client.ClientMsg := Client.SetEncodings(0, [7])

  /** Whatever arrives is passed on unchanged exactly if neither setting is on. */
  lemma PassthroughIffNothingSet(block: bool, restrict: bool, fmt: Option<nat>)
    ensures (forall chunks :: ClientRelay(Client.Config(block, restrict), fmt, [], chunks).out == Flatten(chunks))
            <==> !block && !restrict
  {
    if block || restrict {
      var chunks := SomethingChanges(block, restrict, fmt);
    } else {
      assert Client.Config(block, restrict).Passive();
    }
  }

  lemma SomethingChanges(block: bool, restrict: bool, fmt: Option<nat>) returns (chunks: seq<seq<byte>>)
    requires block || restrict
    ensures ClientRelay(Client.Config(block, restrict), fmt, [], chunks).out != Flatten(chunks)
  {
    var m := if block then SMALL_CUT_TEXT else TIGHT_ONLY;
    var wire := Client.WireAll([m]);
    chunks := [wire];
    assert chunks[1..] == [] && wire + [] == wire;
    ChangedOnTheWire(block, restrict);
    ClientSendsPermitted(block, restrict, fmt, [m], chunks);
  }

  lemma ChangedOnTheWire(block: bool, restrict: bool)
    requires block || restrict
    ensures var m := if block then SMALL_CUT_TEXT else TIGHT_ONLY;
            Client.WellFormed(m) && Client.WireAll(Client.Permitted(block, restrict, [m])) != Client.WireAll([m])
  {
    if block {
      OneOnTheWire(SMALL_CUT_TEXT);
      NothingPermitted(restrict);
    } else {
      OneOnTheWire(TIGHT_ONLY);
      OneOnTheWire(Client.SetEncodings(0, [1, 0]));
      Client.WireExactly(TIGHT_ONLY);
      Client.WireExactly(Client.SetEncodings(0, [1, 0]));
      ForcedPermitted();
    }
  }

  lemma NothingPermitted(restrict: bool)
    ensures Client.Permitted(true, restrict, [SMALL_CUT_TEXT]) == []
  {
    assert [SMALL_CUT_TEXT][1..] == [];
  }

  lemma ForcedPermitted()
    ensures Client.Permitted(false, true, [TIGHT_ONLY]) == [Client.SetEncodings(0, [1, 0])]
  {
    assert [TIGHT_ONLY][1..] == [];
    assert [Client.SetEncodings(0, [1, 0])] + [] == [Client.SetEncodings(0, [1, 0])];
  }

  lemma OneOnTheWire(m: Client.ClientMsg)
    requires Client.WellFormed(m)
    ensures Client.WireAll([m]) == Client.Print(m) && Client.Print(m) != []
  {
    assert [m][1..] == [] && Client.Print(m) + [] == Client.Print(m);
  }

  // -- Server to client --------------------------------------------------------------------------------

  /** What `pump_agent_to_ws` sends; without restricted encodings the filter parses nothing. */
  ghost function ServerRelay(restrict: bool, cfg: Server.Config, pending: nat, buf: seq<byte>, chunks: seq<seq<byte>>): Outcome<nat>
  {
    if !restrict then Outcome(Flatten(chunks), buf, pending, false, false)
    else Server.ServerParserSound(cfg); Relay(Server.ServerParser(cfg), pending, buf, chunks)
  }

  method PayloadLength(width: nat, height: nat, bytesPerPixel: nat) returns (n: nat)
    ensures n == Area(width, height, bytesPerPixel)
  {
    AreaIsProduct(width, height, bytesPerPixel);
    n := width * height * bytesPerPixel;
  }

  class ServerToClientFilter {
    const blockCutText: bool
    const restrict: bool
    const pixelFormat: PixelFormatTracker
    var buf: seq<byte>
    var rectsRemaining: nat
    var blockedOnce: bool

    function Cfg(): Server.Config
      reads pixelFormat
    {
      Server.Config(blockCutText, pixelFormat.bytesPerPixel)
    }

    constructor (blockCutText: bool, restrict: bool, pixelFormat: PixelFormatTracker)
      ensures this.blockCutText == blockCutText && this.restrict == restrict && this.pixelFormat == pixelFormat
      ensures buf == [] && rectsRemaining == 0 && !blockedOnce
    {
      this.blockCutText := blockCutText;
      this.restrict := restrict;
      this.pixelFormat := pixelFormat;
      buf := [];
      rectsRemaining := 0;
      blockedOnce := false;
    }

    method Consume(n: nat) returns (raw: seq<byte>)
      requires n <= |buf|
      modifies this`buf
      ensures raw == old(buf)[..n] && buf == old(buf)[n..]
    {
      raw := buf[..n];
      buf := buf[n..];
    }

    method ConsumeWhole(n: nat) returns (r: Result<Option<seq<byte>>, RfbProtocolError>)
      modifies this`buf
      ensures |old(buf)| < n ==> r == Ok(None) && buf == old(buf)
      ensures n <= |old(buf)| ==> r == Ok(Some(old(buf)[..n])) && buf == old(buf)[n..]
    {
      if |buf| < n {
        return Ok(None);
      }
      var raw := Consume(n);
      return Ok(Some(raw));
    }

    /** The state after a step, as `TakeOne` and `TakeRect` leave it. */
    twostate predicate Stepped(step: Step<nat>, new r: Result<Option<seq<byte>>, RfbProtocolError>)
      reads this
    {
      match step
      case NeedMore => r == Ok(None) && unchanged(this)
      case Malformed => r.Err? && unchanged(this)
      case Take(n, out, next, blocked) =>
        && r == Ok(Some(out))
        && n <= |old(buf)| && buf == old(buf)[n..]
        && rectsRemaining == next
        && blockedOnce == (old(blockedOnce) || blocked)
    }

    method TakeRect() returns (r: Result<Option<seq<byte>>, RfbProtocolError>)
      requires rectsRemaining > 0
      modifies this`buf, this`rectsRemaining
      ensures Stepped(Server.ServerStep(Cfg(), old(rectsRemaining), old(buf)), r)
    {
      if |buf| < 12 {
        return Ok(None);
      }
      var width, height := U16(buf[4], buf[5]), U16(buf[6], buf[7]);
      var encoding := I32(buf[8..12]);
      var total: nat;
      if encoding == 1 {
        total := 12 + 4;
      } else if encoding == 0 {
        if pixelFormat.bytesPerPixel.None? {
          return Err(RfbProtocolError);
        }
        var payload := PayloadLength(width, height, pixelFormat.bytesPerPixel.value);
        total := 12 + payload;
      } else {
        return Err(RfbProtocolError);
      }
      if |buf| < total {
        return Ok(None);
      }
      var raw := Consume(total);
      rectsRemaining := rectsRemaining - 1;
      r := Ok(Some(raw));
    }

    method TakeOne() returns (r: Result<Option<seq<byte>>, RfbProtocolError>)
      modifies this`buf, this`rectsRemaining, this`blockedOnce
      ensures Stepped(Server.ServerStep(Cfg(), old(rectsRemaining), old(buf)), r)
    {
      if rectsRemaining > 0 {
        r := TakeRect();
        return;
      }
      if |buf| == 0 {
        return Ok(None);
      }
      var msgType := buf[0];
      if msgType == 0 {
        if |buf| < 4 {
          return Ok(None);
        }
        var numRects := U16(buf[2], buf[3]);
        var header := Consume(4);
        rectsRemaining := numRects;
        r := Ok(Some(header));
      } else if msgType == 1 {
        if |buf| < 6 {
          return Ok(None);
        }
        r := ConsumeWhole(6 + 6 * U16(buf[4], buf[5]));
      } else if msgType == 2 || msgType == 150 {
        r := ConsumeWhole(1);
      } else if msgType == 3 {
        if |buf| < 8 {
          return Ok(None);
        }
        var total := 8 + Abs(I32(buf[4..8]));
        if |buf| < total {
          return Ok(None);
        }
        var raw := Consume(total);
        if blockCutText {
          blockedOnce := true;
          raw := [];
        }
        r := Ok(Some(raw));
      } else if msgType == 248 {
        if |buf| < 9 {
          return Ok(None);
        }
        r := ConsumeWhole(9 + buf[8] as nat);
      } else if msgType == 250 {
        r := ConsumeWhole(4);
      } else {
        r := Err(RfbProtocolError);
      }
    }

    /** One turn of the loop of `Feed`, as for the other direction. */
    method FeedTurn(ghost whole: Outcome<nat>, ghost out: seq<byte>, ghost dropped: bool)
        returns (r: Result<Option<seq<byte>>, RfbProtocolError>, ghost dropped': bool)
      requires Progress(Server.ServerParser(Cfg())) && (dropped ==> blockedOnce)
      requires whole == Then(out, dropped, Run(Server.ServerParser(Cfg()), rectsRemaining, buf))
      modifies this`buf, this`rectsRemaining, this`blockedOnce
      ensures r.Ok? && r.value.Some? ==>
                && |buf| < |old(buf)|
                && whole == Then(out + r.value.value, dropped', Run(Server.ServerParser(Cfg()), rectsRemaining, buf))
      ensures r.Err? || r.value.None? ==> whole == Outcome(out, buf, rectsRemaining, dropped', r.Err?)
      ensures (dropped ==> dropped') && blockedOnce == (old(blockedOnce) || dropped')
    {
      ghost var p := Server.ServerParser(Cfg());
      ghost var step := p(rectsRemaining, buf);
      dropped' := dropped;
      if step.Take? {
        RunUnfold(p, rectsRemaining, buf, out, dropped);
        dropped' := dropped || step.blocked;
      } else {
        RunStops(p, rectsRemaining, buf, out, dropped);
      }
      r := TakeOne();
    }

    method Feed(data: seq<byte>) returns (r: Result<seq<byte>, RfbProtocolError>)
      modifies this`buf, this`rectsRemaining, this`blockedOnce
      ensures !restrict ==> r == Ok(data) && unchanged(this)
      ensures Progress(Server.ServerParser(Cfg()))
      ensures restrict ==>
                var o := Run(Server.ServerParser(Cfg()), old(rectsRemaining), old(buf) + data);
                && (if o.failed then r.Err? else r == Ok(o.out))
                && buf == o.rest && rectsRemaining == o.state
                && blockedOnce == (old(blockedOnce) || o.blocked)
    {
      Server.ServerParserSound(Cfg());
      if !restrict {
        return Ok(data);
      }
      buf := buf + data;
      var out: seq<byte> := [];
      ghost var whole := Run(Server.ServerParser(Cfg()), rectsRemaining, buf);
      ghost var dropped := false;
      assert whole == Then([], false, whole);
      while true
        invariant whole == Then(out, dropped, Run(Server.ServerParser(Cfg()), rectsRemaining, buf))
        invariant blockedOnce == (old(blockedOnce) || dropped)
        decreases |buf|
      {
        var msg;
        msg, dropped := FeedTurn(whole, out, dropped);
        if msg.Err? {
          return Err(msg.error);
        }
        if msg.value.None? {
          break;
        }
        out := out + msg.value.value;
      }
      r := Ok(out);
    }
  }

  /** What `pump_agent_to_ws` sends when the pixel format is `formats[i]` as chunk `i` arrives. */
  ghost function ServerPump(restrict: bool, block: bool, formats: seq<Option<nat>>, pending: nat, buf: seq<byte>, chunks: seq<seq<byte>>): Outcome<nat>
    requires |formats| == |chunks|
  {
    if !restrict then Outcome(Flatten(chunks), buf, pending, false, false)
    else Server.FamilySound(block); ChangingRelay(Server.ParserFor(block), formats, pending, buf, chunks)
  }

  /** What one chunk makes of the filter. */
  ghost function ChunkOutcome(restrict: bool, block: bool, format: Option<nat>, pending: nat, buf: seq<byte>, chunk: seq<byte>): Outcome<nat> {
    if !restrict then Outcome(chunk, buf, pending, false, false)
    else Server.ServerParserSound(Server.Config(block, format)); Run(Server.ServerParser(Server.Config(block, format)), pending, buf + chunk)
  }

  lemma PumpUnfold(restrict: bool, block: bool, formats: seq<Option<nat>>, pending: nat, buf: seq<byte>, chunks: seq<seq<byte>>,
                   sent: seq<byte>, blocked: bool)
    requires |formats| == |chunks| && chunks != []
    ensures var r := ChunkOutcome(restrict, block, formats[0], pending, buf, chunks[0]);
            Then(sent, blocked, ServerPump(restrict, block, formats, pending, buf, chunks)) ==
              if r.failed then r.(out := sent, blocked := blocked || r.blocked)
              else Then(sent + r.out, blocked || r.blocked, ServerPump(restrict, block, formats[1..], r.state, r.rest, chunks[1..]))
  {
    if restrict {
      Server.FamilySound(block);
      ChangingUnfold(Server.ParserFor(block), formats, pending, buf, chunks, sent, blocked);
    } else {
      var later := Outcome(Flatten(chunks[1..]), buf, pending, false, false);
      assert ServerPump(restrict, block, formats, pending, buf, chunks) == Then(chunks[0], false, later);
      ThenAgain(sent, blocked, chunks[0], false, later);
    }
  }

  /** One turn of the pump; the other pump may have changed the shared pixel format before it. */
  method RelayChunk(f: ServerToClientFilter, chunk: seq<byte>, format: Option<nat>) returns (forward: Result<seq<byte>, RfbProtocolError>)
    modifies f`buf, f`rectsRemaining, f`blockedOnce, f.pixelFormat
    ensures var o := ChunkOutcome(f.restrict, f.blockCutText, format, old(f.rectsRemaining), old(f.buf), chunk);
            && (if o.failed then forward.Err? else forward == Ok(o.out))
            && f.blockedOnce == (old(f.blockedOnce) || o.blocked)
            && f.buf == o.rest && f.rectsRemaining == o.state
  {
    f.pixelFormat.bytesPerPixel := format;
    forward := f.Feed(chunk);
  }

  /** `pump_agent_to_ws`. */
  method PumpToBrowser(f: ServerToClientFilter, chunks: seq<seq<byte>>, formats: seq<Option<nat>>) returns (sent: seq<byte>, tornDown: bool)
    requires |formats| == |chunks|
    modifies f`buf, f`rectsRemaining, f`blockedOnce, f.pixelFormat
    ensures var o := ServerPump(f.restrict, f.blockCutText, formats, old(f.rectsRemaining), old(f.buf), chunks);
            && sent == o.out && tornDown == o.failed
            && f.blockedOnce == (old(f.blockedOnce) || o.blocked)
            && f.buf == o.rest && f.rectsRemaining == o.state
  {
    sent, tornDown := [], false;
    ghost var whole := ServerPump(f.restrict, f.blockCutText, formats, f.rectsRemaining, f.buf, chunks);
    ghost var dropped := false;
    assert chunks[0..] == chunks && formats[0..] == formats && whole == Then([], false, whole);
    for i := 0 to |chunks|
      invariant whole == Then(sent, dropped, ServerPump(f.restrict, f.blockCutText, formats[i..], f.rectsRemaining, f.buf, chunks[i..]))
      invariant f.blockedOnce == (old(f.blockedOnce) || dropped)
      invariant !tornDown
    {
      assert chunks[i..][1..] == chunks[i + 1..] && formats[i..][1..] == formats[i + 1..];
      PumpUnfold(f.restrict, f.blockCutText, formats[i..], f.rectsRemaining, f.buf, chunks[i..], sent, dropped);
      dropped := dropped || ChunkOutcome(f.restrict, f.blockCutText, formats[i], f.rectsRemaining, f.buf, chunks[i]).blocked;
      var forward := RelayChunk(f, chunks[i], formats[i]);
      if forward.Err? {
        tornDown := true;
        return;
      }
      sent := sent + forward.value;
    }
    PumpEnds(f.restrict, f.blockCutText, f.rectsRemaining, f.buf, sent);
  }

  lemma PumpEnds(restrict: bool, block: bool, pending: nat, buf: seq<byte>, sent: seq<byte>)
    ensures ServerPump(restrict, block, [], pending, buf, []) == Outcome([], buf, pending, false, false)
    ensures sent + [] == sent
  {
  }

  /** With one pixel format throughout, the pump relays through one parser. */
  lemma PumpWithOneFormat(restrict: bool, cfg: Server.Config, formats: seq<Option<nat>>, pending: nat, buf: seq<byte>, chunks: seq<seq<byte>>)
    requires |formats| == |chunks| && forall i | 0 <= i < |formats| :: formats[i] == cfg.bytesPerPixel
    ensures ServerPump(restrict, cfg.blockCutText, formats, pending, buf, chunks) == ServerRelay(restrict, cfg, pending, buf, chunks)
  {
    Server.FamilySound(cfg.blockCutText);
    UnchangingRelay(Server.ParserFor(cfg.blockCutText), cfg.bytesPerPixel, formats, pending, buf, chunks);
  }

  const KEY: seq<byte> := [4, 0, 0, 0, 0, 0, 0, 0]

  lemma StepsOnKey(fmt: Option<nat>)
    ensures var p := Client.ClientParser(Client.Config(true, true));
            p(fmt, KEY + [1]) == Take(8, KEY, fmt, false) && p(fmt, [1]) == Malformed && p(fmt, KEY) == Take(8, KEY, fmt, false)
  {
    assert (KEY + [1])[..8] == KEY && KEY[..8] == KEY;
  }

  lemma RunOnKey(fmt: Option<nat>)
    ensures Progress(Client.ClientParser(Client.Config(true, true)))
    ensures var p := Client.ClientParser(Client.Config(true, true));
            && Run(p, fmt, KEY) == Outcome(KEY, [], fmt, false, false)
            && Run(p, fmt, [1]) == Outcome([], [1], fmt, false, true)
            && Run(p, fmt, KEY + [1]).failed
  {
    var p := Client.ClientParser(Client.Config(true, true));
    Client.ClientParserSound(Client.Config(true, true));
    StepsOnKey(fmt);
    assert (KEY + [1])[8..] == [1] && KEY[8..] == [];
    var left: seq<byte> := [];
    assert Run(p, fmt, left) == Outcome([], [], fmt, false, false);
    assert KEY + [] == KEY;
  }

  /** A key event and then a byte of no known type: in one chunk nothing is forwarded, in two the key event is. */
  lemma FailingStreamDependsOnChunks(fmt: Option<nat>)
    ensures var cfg := Client.Config(true, true);
            var one, two := ClientRelay(cfg, fmt, [], [KEY + [1]]), ClientRelay(cfg, fmt, [], [KEY, [1]]);
            one.failed && two.failed && one.out == [] && two.out == KEY
  {
    var p := Client.ClientParser(Client.Config(true, true));
    RunOnKey(fmt);
    assert [] + (KEY + [1]) == KEY + [1] && [] + KEY == KEY && [] + [1] == [1] && KEY + [] == KEY;
    assert [KEY, [1]][1..] == [[1]];
    assert Relay(p, fmt, [], [[1]]).failed && Relay(p, fmt, [], [[1]]).out == [];
  }

  /** Exactly when the client-side cutting does not matter, for every stream and setting. */
  lemma ClientForwardsAlikeIff(cfg: Client.Config, fmt: Option<nat>, data: seq<byte>)
    ensures Progress(Client.ClientParser(cfg))
    ensures (forall c1, c2 | Flatten(c1) == data && Flatten(c2) == data ::
               ClientRelay(cfg, fmt, [], c1).out == ClientRelay(cfg, fmt, [], c2).out)
            <==> var whole := Run(Client.ClientParser(cfg), fmt, data);
                 cfg.Passive() || !whole.failed || whole.out == []
  {
    var p := Client.ClientParser(cfg);
    Client.ClientParserSound(cfg);
    assert [] + data == data;
    if !cfg.Passive() {
      ForwardsAlikeIff(p, fmt, [], data);
      assert forall c :: ClientRelay(cfg, fmt, [], c) == Relay(p, fmt, [], c);
    }
  }

  /** And the server-side cutting. */
  lemma ServerForwardsAlikeIff(restrict: bool, cfg: Server.Config, pending: nat, data: seq<byte>)
    ensures Progress(Server.ServerParser(cfg))
    ensures (forall c1, c2 | Flatten(c1) == data && Flatten(c2) == data ::
               ServerRelay(restrict, cfg, pending, [], c1).out == ServerRelay(restrict, cfg, pending, [], c2).out)
            <==> var whole := Run(Server.ServerParser(cfg), pending, data);
                 !restrict || !whole.failed || whole.out == []
  {
    var p := Server.ServerParser(cfg);
    Server.ServerParserSound(cfg);
    assert [] + data == data;
    if restrict {
      ForwardsAlikeIff(p, pending, [], data);
      assert forall c :: ServerRelay(restrict, cfg, pending, [], c) == Relay(p, pending, [], c);
    }
  }

  /** With nothing to enforce even a byte no message begins with is passed on. */
  lemma PassthroughForwardsAnything(fmt: Option<nat>)
    ensures Client.ClientFrame([1]) == Bad
    ensures ClientRelay(Client.Config(false, false), fmt, [], [[1]]) == Outcome([1], [], fmt, false, false)
  {
    var chunks: seq<seq<byte>> := [[1]];
    assert chunks[1..] == [];
  }

  lemma ServerChunking(restrict: bool, cfg: Server.Config, c1: seq<seq<byte>>, c2: seq<seq<byte>>)
    requires Flatten(c1) == Flatten(c2)
    ensures var r1, r2 := ServerRelay(restrict, cfg, 0, [], c1), ServerRelay(restrict, cfg, 0, [], c2);
            && r1.failed == r2.failed && r1.state == r2.state && r1.blocked == r2.blocked
            && (!r1.failed ==> r1 == r2)
            && (r1.out <= r2.out || r2.out <= r1.out)
  {
    if restrict {
      Server.ServerParserSound(cfg);
      ChunkingIndependent(Server.ServerParser(cfg), 0, [], c1, c2);
    }
  }

  /**
   What the server-side pump sends, in the two settings themselves, for any list of messages in any chunks:
   the list without cut text if encodings are restricted and cut text is blocked, else the list.
   */
  lemma ServerSends(restrict: bool, block: bool, format: Option<nat>, msgs: seq<Server.ServerMsg>, chunks: seq<seq<byte>>)
    requires forall m <- msgs :: Server.WellFormed(format, m)
    requires Flatten(chunks) == Server.PrintMessages(Server.Config(block, format), msgs)
    ensures var cfg := Server.Config(block, format);
            var o := ServerRelay(restrict, cfg, 0, [], chunks);
            && o.out == Server.PrintMessages(cfg, if restrict && block then Server.WithoutCutText(msgs) else msgs)
            && o.rest == [] && o.state == 0 && !o.failed
  {
    var cfg := Server.Config(block, format);
    if restrict {
      Server.ServerParserSound(cfg);
      Server.ServerRunOnMessages(cfg, msgs);
      assert [] + Flatten(chunks) == Flatten(chunks);
      RelayAgreesWithWhole(Server.ServerParser(cfg), 0, [], chunks);
    }
  }

  // -- One session's pair of filters -------------------------------------------------------------------

  method BuildFilters(mode: ClipboardMode) returns (c: ClientToServerFilter, s: ServerToClientFilter)
    ensures fresh(c) && fresh(s) && fresh(c.pixelFormat) && c.pixelFormat == s.pixelFormat
    ensures c.pixelFormat.bytesPerPixel == None && c.buf == [] && s.buf == [] && s.rectsRemaining == 0
    ensures !c.blockedOnce && !s.blockedOnce
    ensures c.blockCutText <==> !AllowsLocalToRemote(mode)
    ensures s.blockCutText <==> !AllowsRemoteToLocal(mode)
    ensures c.restrict == s.restrict == s.blockCutText
    ensures c.blockCutText <==> mode == NONE || mode == REMOTE_TO_LOCAL
    ensures s.blockCutText <==> mode == NONE || mode == LOCAL_TO_REMOTE
  {
    var enforcement := EnforcementForMode(mode);
    var pixelFormat := new PixelFormatTracker();
    c := new ClientToServerFilter(enforcement.blockClientToServer, enforcement.RestrictServerEncodings(), pixelFormat);
    s := new ServerToClientFilter(enforcement.blockServerToClient, enforcement.RestrictServerEncodings(), pixelFormat);
  }

  /** The content is an object whose clipboard mode is one of the two texts. */
  predicate SetsMode(k: Content, one: string, other: string) {
    k.Object? && (k.clipboardMode == Some(one) || k.clipboardMode == Some(other))
  }

  /**
   From the text of group policies to enforcement: the filters of a session block a direction iff some
   applicable policy says NONE or the other direction, encodings are restricted iff the server's side is
   blocked, and nothing at all is enforced when none sets a mode.
   */
  method FiltersForPolicies(contents: seq<Content>) returns (c: ClientToServerFilter, s: ServerToClientFilter)
    ensures c.blockCutText <==> exists k <- contents :: SetsMode(k, "NONE", "REMOTE_TO_LOCAL")
    ensures s.blockCutText <==> exists k <- contents :: SetsMode(k, "NONE", "LOCAL_TO_REMOTE")
    ensures c.restrict == s.restrict == s.blockCutText
    ensures (forall k <- contents :: ParseMode(k).None?) ==> !c.blockCutText && !s.blockCutText && !c.restrict && !s.restrict
  {
    var mode := ResolveClipboardPolicy(contents);
    forall k <- contents
      ensures SetsMode(k, "NONE", "REMOTE_TO_LOCAL") <==> ParseMode(k).Some? && !AllowsLocalToRemote(ParseMode(k).value)
      ensures SetsMode(k, "NONE", "LOCAL_TO_REMOTE") <==> ParseMode(k).Some? && !AllowsRemoteToLocal(ParseMode(k).value)
    {
      ObjectsExactly(k);
    }
    c, s := BuildFilters(mode);
  }
}
