/**
 The server-to-client half of the clipboard filter, for a session whose encodings were forced to Raw and
 CopyRect.  The filter works on units smaller than a message: a FramebufferUpdate is a header announcing
 rectangles, then the rectangles one by one, and the state is the number still to come (RFC 6143 sections
 7.6.1, 7.7.1 and 7.7.2).
 */
module RfbServer {
  import opened Wrappers
  import opened RfbBytes
  import opened RfbPixels
  import opened StreamParser
  import opened WireCodec

  /** The negotiated pixel size is fixed while one stream is followed. */
  datatype Config = Config(blockCutText: bool, bytesPerPixel: Option<nat>)

  // -- Grammar: units and their wire form --------------------------------------------------------------

  datatype Unit =
    | UpdateHeader(filler: byte, count: nat)
    | CopyRect(geometry: seq<byte>, source: seq<byte>)
    | RawRect(corner: seq<byte>, width: nat, height: nat, rows: Raster)
    | ColourMap(filler: byte, first: seq<byte>, count: nat, colours: seq<byte>)
    | Bell
    | CutText(pad: seq<byte>, extended: bool, text: seq<byte>)
    | EndOfContinuousUpdates
    | Fence(head: seq<byte>, payload: seq<byte>)
    | Xvp(body: seq<byte>)
  {
    predicate IsRect() {
      CopyRect? || RawRect?
    }
  }

  /** The sizes of a unit are what its own header announces. */
  predicate Sized(bpp: Option<nat>, u: Unit) {
    match u
    case UpdateHeader(_, count) => count < 65536
    case CopyRect(geometry, source) => |geometry| == 8 && |source| == 4
    case RawRect(corner, w, h, rows) =>
      |corner| == 4 && w < 65536 && h < 65536 && bpp.Some? && HasShape(rows, w, h, bpp.value)
    case ColourMap(_, first, count, colours) => |first| == 2 && count < 65536 && |colours| == 6 * count
    case CutText(pad, extended, text) =>
      |pad| == 3 && (if extended then 0 < |text| <= I32_LIMIT else |text| < I32_LIMIT)
    case Fence(head, payload) => |head| == 7 && |payload| < 256
    case Xvp(body) => |body| == 3
    case Bell | EndOfContinuousUpdates => true
  }

  /** Rectangles are due exactly while some announced one is outstanding. */
  predicate Fits(bpp: Option<nat>, pending: nat, u: Unit) {
    Sized(bpp, u) && (u.IsRect() <==> pending > 0)
  }

  function Print(bpp: Option<nat>, u: Unit): (b: seq<byte>)
    requires Sized(bpp, u)
    ensures b != []
  {
    match u
    case UpdateHeader(filler, count) => [0, filler] + EncU16(count)
    case CopyRect(geometry, source) => geometry + [0, 0, 0, 1] + source
    case RawRect(corner, w, h, rows) => corner + EncU16(w) + EncU16(h) + [0, 0, 0, 0] + PixelBytes(rows)
    case ColourMap(filler, first, count, colours) => [1, filler] + first + EncU16(count) + colours
    case Bell => [2]
    case CutText(pad, extended, text) => [3] + pad + EncI32(if extended then -|text| else |text|) + text
    case EndOfContinuousUpdates => [150]
    case Fence(head, payload) => [248] + head + [|payload|] + payload
    case Xvp(body) => [250] + body
  }

  /** The first byte and the length of each kind of unit on the wire; a rectangle begins with its corner. */
  lemma WireExactly(bpp: Option<nat>, u: Unit)
    requires Sized(bpp, u)
    ensures !u.IsRect() ==>
              Print(bpp, u)[0] == match u
                                  case UpdateHeader(_, _) => 0
                                  case ColourMap(_, _, _, _) => 1
                                  case Bell => 2
                                  case CutText(_, _, _) => 3
                                  case EndOfContinuousUpdates => 150
                                  case Fence(_, _) => 248
                                  case _ => 250
    ensures |Print(bpp, u)| == match u
                               case UpdateHeader(_, _) | Xvp(_) => 4
                               case CopyRect(_, _) => 16
                               case RawRect(_, _, _, rows) => 12 + |PixelBytes(rows)|
                               case ColourMap(_, _, count, _) => 6 + 6 * count
                               case Bell | EndOfContinuousUpdates => 1
                               case CutText(_, _, text) => 8 + |text|
                               case Fence(_, payload) => 9 + |payload|
  {
  }

  function Wire(bpp: Option<nat>, u: Unit): seq<byte> {
    if Sized(bpp, u) then Print(bpp, u) else []
  }

  function NextPending(pending: nat, u: Unit): nat {
    if u.UpdateHeader? then u.count else if u.IsRect() && pending > 0 then pending - 1 else pending
  }

  // -- The framing decision of `_take_one` and `_take_rect` --------------------------------------------

  function RectFrame(bpp: Option<nat>, b: seq<byte>): (f: Frame)
    ensures f.Whole? ==> 0 < f.total <= |b|
  {
    if |b| < 12 then Wait
    else if I32(b[8..12]) == 1 then AtLeast(b, 16)
    else if I32(b[8..12]) == 0 && bpp.Some? then
      AtLeast(b, 12 + Area(U16(b[4], b[5]), U16(b[6], b[7]), bpp.value))
    else Bad
  }

  /** How many bytes must be there before the length of a message of type `t` is known; 0 if unknown. */
  function HeaderLength(t: byte): nat {
    match t
    case 2 | 150 => 1
    case 0 | 250 => 4
    case 1 => 6
    case 3 => 8
    case 248 => 9
    case _ => 0
  }

  /** The whole length a message announces in its header; an update's rectangles are units of their own. */
  function TotalLength(b: seq<byte>): (n: nat)
    requires b != [] && 0 < HeaderLength(b[0]) <= |b|
    ensures n >= HeaderLength(b[0])
  {
    match b[0]
    case 1 => 6 + 6 * U16(b[4], b[5])
    case 3 => 8 + Abs(I32(b[4..8]))
    case 248 => 9 + b[8] as nat
    case _ => HeaderLength(b[0])
  }

  function MessageFrame(b: seq<byte>): (f: Frame)
    ensures f.Whole? ==> 0 < f.total <= |b|
  {
    if b == [] then Wait
    else if HeaderLength(b[0]) == 0 then Bad
    else if |b| < HeaderLength(b[0]) then Wait
    else AtLeast(b, TotalLength(b))
  }

  function ServerFrame(bpp: Option<nat>, pending: nat, b: seq<byte>): (f: Frame)
    ensures f.Whole? ==> 0 < f.total <= |b|
  {
    if pending > 0 then RectFrame(bpp, b) else MessageFrame(b)
  }

  /** One `_take_one`: the state is the number of rectangles still to come. */
  function ServerStep(cfg: Config, pending: nat, b: seq<byte>): Step<nat> {
    match ServerFrame(cfg.bytesPerPixel, pending, b)
    case Wait => NeedMore
    case Bad => Malformed
    case Whole(n) =>
      if pending > 0 then Take(n, b[..n], pending - 1, false)
      else if b[0] == 0 then Take(n, b[..n], U16(b[2], b[3]), false)
      else if b[0] == 3 && cfg.blockCutText then Take(n, [], 0, true)
      else Take(n, b[..n], 0, false)
  }

  function ServerParser(cfg: Config): Parser<nat> {
    (pending: nat, b: seq<byte>) => ServerStep(cfg, pending, b)
  }

  // -- The decision is stable, local and replayable ----------------------------------------------------

  lemma FrameStable(bpp: Option<nat>, pending: nat, b: seq<byte>, x: seq<byte>)
    requires ServerFrame(bpp, pending, b) != Wait
    ensures ServerFrame(bpp, pending, b + x) == ServerFrame(bpp, pending, b)
  {
    if |b| >= 8 {
      assert (b + x)[4..8] == b[4..8];
    }
    if |b| >= 12 {
      assert (b + x)[8..12] == b[8..12];
    }
  }

  lemma FrameLocal(bpp: Option<nat>, pending: nat, b: seq<byte>)
    requires ServerFrame(bpp, pending, b).Whole?
    ensures var n := ServerFrame(bpp, pending, b).total;
            ServerFrame(bpp, pending, b[..n]) == Whole(n)
  {
    if pending > 0 {
      RectLocal(bpp, b);
    } else {
      MessageLocal(b);
    }
  }

  lemma RectLocal(bpp: Option<nat>, b: seq<byte>)
    requires RectFrame(bpp, b).Whole?
    ensures RectFrame(bpp, b[..RectFrame(bpp, b).total]) == Whole(RectFrame(bpp, b).total)
  {
    var raw := b[..RectFrame(bpp, b).total];
    assert raw[8..12] == b[8..12] && raw[4] == b[4] && raw[5] == b[5] && raw[6] == b[6] && raw[7] == b[7];
  }

  lemma MessageLocal(b: seq<byte>)
    requires MessageFrame(b).Whole?
    ensures MessageFrame(b[..MessageFrame(b).total]) == Whole(MessageFrame(b).total)
  {
    var raw := b[..MessageFrame(b).total];
    if |raw| >= 8 {
      assert raw[4..8] == b[4..8];
    }
  }

  lemma StepStable(cfg: Config, pending: nat, b: seq<byte>, x: seq<byte>)
    requires !ServerStep(cfg, pending, b).NeedMore?
    ensures ServerStep(cfg, pending, b + x) == ServerStep(cfg, pending, b)
  {
    var f := ServerFrame(cfg.bytesPerPixel, pending, b);
    FrameStable(cfg.bytesPerPixel, pending, b, x);
    if f.Whole? {
      assert (b + x)[..f.total] == b[..f.total];
    }
  }

  lemma StepLocal(cfg: Config, pending: nat, b: seq<byte>)
    requires ServerStep(cfg, pending, b).Take?
    ensures var n := ServerStep(cfg, pending, b).consumed;
            n <= |b| && ServerStep(cfg, pending, b[..n]) == ServerStep(cfg, pending, b)
  {
    var n := ServerFrame(cfg.bytesPerPixel, pending, b).total;
    FrameLocal(cfg.bytesPerPixel, pending, b);
    assert b[..n][..n] == b[..n];
  }

  lemma ServerParserSound(cfg: Config)
    ensures Progress(ServerParser(cfg)) && Stable(ServerParser(cfg))
    ensures Local(ServerParser(cfg)) && Replayable(ServerParser(cfg))
  {
    var p := ServerParser(cfg);
    forall pending: nat, b: seq<byte>, x: seq<byte> | !p(pending, b).NeedMore?
      ensures p(pending, b + x) == p(pending, b)
    {
      StepStable(cfg, pending, b, x);
    }
    forall pending: nat, b: seq<byte> | p(pending, b).Take?
      ensures p(pending, b).consumed <= |b| && p(pending, b[..p(pending, b).consumed]) == p(pending, b)
    {
      StepLocal(cfg, pending, b);
    }
    forall pending: nat, b: seq<byte>, x: seq<byte> | p(pending, b).Take?
      ensures var t := p(pending, b);
              if t.out == [] then t.next == pending else p(pending, t.out + x) == Take(|t.out|, t.out, t.next, false)
    {
      StepReplays(cfg, pending, b, x);
    }
  }

  lemma StepReplays(cfg: Config, pending: nat, b: seq<byte>, x: seq<byte>)
    requires ServerStep(cfg, pending, b).Take?
    ensures var t := ServerStep(cfg, pending, b);
            if t.out == [] then t.next == pending
            else ServerStep(cfg, pending, t.out + x) == Take(|t.out|, t.out, t.next, false)
  {
    StepLocal(cfg, pending, b);
    var t := ServerStep(cfg, pending, b);
    StepStable(cfg, pending, b[..t.consumed], x);
  }

  // -- Printer and parser agree ------------------------------------------------------------------------

  lemma PrintedFrame(bpp: Option<nat>, pending: nat, u: Unit, x: seq<byte>)
    requires Fits(bpp, pending, u)
    ensures ServerFrame(bpp, pending, Wire(bpp, u) + x) == Whole(|Wire(bpp, u)|)
  {
    if u.IsRect() {
      PrintedRect(bpp, u, x);
    } else if u.ColourMap? || u.CutText? || u.Fence? {
      PrintedComputed(bpp, u, x);
    } else {
      PrintedPlain(bpp, u, x);
    }
  }

  lemma PrintedRect(bpp: Option<nat>, u: Unit, x: seq<byte>)
    requires Sized(bpp, u) && u.IsRect()
    ensures RectFrame(bpp, Print(bpp, u) + x) == Whole(|Print(bpp, u)|)
  {
    match u
    case CopyRect(geometry, source) => PrintedCopyRect(bpp, geometry, source, x);
    case RawRect(corner, w, h, rows) =>
      RasterLength(rows, w, h, bpp.value);
      PrintedRawRect(bpp, corner, w, h, PixelBytes(rows), x);
  }

  lemma PrintedComputed(bpp: Option<nat>, u: Unit, x: seq<byte>)
    requires Sized(bpp, u) && (u.ColourMap? || u.CutText? || u.Fence?)
    ensures MessageFrame(Print(bpp, u) + x) == Whole(|Print(bpp, u)|)
  {
    match u
    case ColourMap(filler, first, count, colours) => PrintedColourMap([1, filler] + first, count, colours, x);
    case CutText(pad, extended, text) => CutTextAnnounces(3, pad, if extended then -|text| else |text|, text, x);
    case Fence(head, payload) => PrintedFence(head, payload, x);
  }

  lemma PrintedPlain(bpp: Option<nat>, u: Unit, x: seq<byte>)
    requires Sized(bpp, u) && (u.UpdateHeader? || u.Bell? || u.EndOfContinuousUpdates? || u.Xvp?)
    ensures MessageFrame(Print(bpp, u) + x) == Whole(|Print(bpp, u)|)
  {
    match u
    case UpdateHeader(filler, count) => PrintedFixed([0, filler] + EncU16(count), x);
    case Bell => PrintedFixed([2], x);
    case EndOfContinuousUpdates => PrintedFixed([150], x);
    case Xvp(body) => PrintedFixed([250] + body, x);
  }

  lemma PrintedFixed(w: seq<byte>, x: seq<byte>)
    requires w != [] && w[0] in {0, 2, 150, 250} && |w| == HeaderLength(w[0])
    ensures MessageFrame(w + x) == Whole(|w|)
  {
  }

  lemma PrintedFence(head: seq<byte>, payload: seq<byte>, x: seq<byte>)
    requires |head| == 7 && |payload| < 256
    ensures MessageFrame([248] + head + [|payload|] + payload + x) == Whole(9 + |payload|)
  {
  }

  lemma PrintedColourMap(start: seq<byte>, count: nat, colours: seq<byte>, x: seq<byte>)
    requires |start| == 4 && start[0] == 1 && count < 65536 && |colours| == 6 * count
    ensures MessageFrame(start + EncU16(count) + colours + x) == Whole(6 + |colours|)
  {
    var e := EncU16(count);
    var b := start + e + colours + x;
    assert b[4] == e[0] && b[5] == e[1];
  }

  lemma PrintedCopyRect(bpp: Option<nat>, geometry: seq<byte>, source: seq<byte>, x: seq<byte>)
    requires |geometry| == 8 && |source| == 4
    ensures RectFrame(bpp, geometry + [0, 0, 0, 1] + source + x) == Whole(16)
  {
    var b := geometry + [0, 0, 0, 1] + source + x;
    assert b[8..12] == [0, 0, 0, 1];
    I32Small(b[8..12], 1);
  }

  lemma PrintedRawRect(bpp: Option<nat>, corner: seq<byte>, w: nat, h: nat, pixels: seq<byte>, x: seq<byte>)
    requires |corner| == 4 && w < 65536 && h < 65536 && bpp.Some? && |pixels| == Area(w, h, bpp.value)
    ensures RectFrame(bpp, corner + EncU16(w) + EncU16(h) + [0, 0, 0, 0] + pixels + x) == Whole(12 + |pixels|)
  {
    var ew, eh := EncU16(w), EncU16(h);
    var b := corner + ew + eh + [0, 0, 0, 0] + pixels + x;
    assert b[8..12] == [0, 0, 0, 0];
    I32Small(b[8..12], 0);
    I32Small(b[8..12], 1);
    assert b[4] == ew[0] && b[5] == ew[1] && b[6] == eh[0] && b[7] == eh[1];
  }

  /** The unit a complete frame stands for. */
  function Decode(bpp: Option<nat>, pending: nat, raw: seq<byte>): Unit
    requires ServerFrame(bpp, pending, raw) == Whole(|raw|)
  {
    if pending > 0 then
      if I32(raw[8..12]) == 1 then CopyRect(raw[..8], raw[12..])
      else
        var w, h := U16(raw[4], raw[5]), U16(raw[6], raw[7]);
        RawRect(raw[..4], w, h, ReadRaster(raw[12..], w, h, bpp.value))
    else
      match raw[0]
      case 0 => UpdateHeader(raw[1], U16(raw[2], raw[3]))
      case 1 => ColourMap(raw[1], raw[2..4], U16(raw[4], raw[5]), raw[6..])
      case 2 => Bell
      case 3 => CutText(raw[1..4], I32(raw[4..8]) < 0, raw[8..])
      case 150 => EndOfContinuousUpdates
      case 248 => Fence(raw[1..8], raw[9..])
      case _ => Xvp(raw[1..])
  }

  /** Every complete frame is the wire form of a unit that fits. */
  lemma PrintOfDecode(bpp: Option<nat>, pending: nat, raw: seq<byte>)
    requires ServerFrame(bpp, pending, raw) == Whole(|raw|)
    ensures Fits(bpp, pending, Decode(bpp, pending, raw)) && Wire(bpp, Decode(bpp, pending, raw)) == raw
  {
    if pending > 0 {
      if I32(raw[8..12]) == 1 {
        PrintOfCopyRect(raw);
      } else {
        PrintOfRawRect(bpp, raw);
      }
    } else {
      PrintOfMessage(bpp, raw);
    }
  }

  lemma PrintOfMessage(bpp: Option<nat>, raw: seq<byte>)
    requires MessageFrame(raw) == Whole(|raw|)
    ensures ServerFrame(bpp, 0, raw) == Whole(|raw|)
    ensures Fits(bpp, 0, Decode(bpp, 0, raw)) && Wire(bpp, Decode(bpp, 0, raw)) == raw
  {
    assert ServerFrame(bpp, 0, raw) == Whole(|raw|);
    match raw[0]
    case 0 => PrintOfUpdateHeader(raw);
    case 1 => PrintOfColourMap(raw);
    case 2 | 150 => PrintOfSingle(raw);
    case 3 => CutTextReassembled(raw);
    case 248 => PrintOfFence(raw);
    case _ => TypeAndBody(raw);
  }

  lemma PrintOfUpdateHeader(raw: seq<byte>)
    requires |raw| == 4
    ensures [raw[0], raw[1]] + EncU16(U16(raw[2], raw[3])) == raw
  {
    EncU16OfU16(raw[2], raw[3]);
  }

  lemma PrintOfSingle(raw: seq<byte>)
    requires |raw| == 1
    ensures [raw[0]] == raw
  {
  }

  lemma PrintOfFence(raw: seq<byte>)
    requires |raw| >= 9
    ensures [raw[0]] + raw[1..8] + [raw[8]] + raw[9..] == raw
  {
  }

  lemma PrintOfColourMap(raw: seq<byte>)
    requires |raw| >= 6 && raw[0] == 1
    ensures [1, raw[1]] + raw[2..4] + EncU16(U16(raw[4], raw[5])) + raw[6..] == raw
  {
    EncU16OfU16(raw[4], raw[5]);
    assert raw == [raw[0], raw[1]] + raw[2..4] + [raw[4], raw[5]] + raw[6..];
  }

  lemma PrintOfCopyRect(raw: seq<byte>)
    requires |raw| == 16 && I32(raw[8..12]) == 1
    ensures raw[..8] + [0, 0, 0, 1] + raw[12..] == raw
  {
    I32Small(raw[8..12], 1);
    assert raw == raw[..8] + raw[8..12] + raw[12..];
  }

  lemma PrintOfRawRect(bpp: Option<nat>, raw: seq<byte>)
    requires RectFrame(bpp, raw) == Whole(|raw|) && I32(raw[8..12]) == 0
    ensures var w, h := U16(raw[4], raw[5]), U16(raw[6], raw[7]);
            && bpp.Some? && |raw[12..]| == Area(w, h, bpp.value)
            && raw[..4] + EncU16(w) + EncU16(h) + [0, 0, 0, 0] + PixelBytes(ReadRaster(raw[12..], w, h, bpp.value)) == raw
  {
    PixelBytesOfReadRaster(raw[12..], U16(raw[4], raw[5]), U16(raw[6], raw[7]), bpp.value);
    I32Small(raw[8..12], 0);
    EncU16OfU16(raw[4], raw[5]);
    EncU16OfU16(raw[6], raw[7]);
    assert raw == raw[..4] + [raw[4], raw[5]] + [raw[6], raw[7]] + raw[8..12] + raw[12..];
  }

  // -- The three verdicts, exactly ---------------------------------------------------------------------

  /** A rectangle header of which part of a refused encoding has arrived: the filter decides at 12 bytes. */
  predicate HalfReadRefusal(pending: nat, b: seq<byte>) {
    pending > 0 && 8 < |b| < 12 && exists i | 8 <= i < |b| :: b[i] != 0
  }

  lemma RectCompletes(bpp: Option<nat>, b: seq<byte>) returns (x: seq<byte>)
    requires RectFrame(bpp, b) == Wait && !HalfReadRefusal(1, b)
    ensures x != [] && RectFrame(bpp, b + x) == Whole(|b + x|)
  {
    if |b| < 12 {
      x := CompleteHeader(b);
      I32Small((b + x)[8..12], 1);
    } else {
      var total := if I32(b[8..12]) == 1 then 16 else 12 + Area(U16(b[4], b[5]), U16(b[6], b[7]), bpp.value);
      x := Zeros(total - |b|);
      SameHeader(b, x);
    }
  }

  /** A header that may still become a CopyRect's. */
  lemma CompleteHeader(b: seq<byte>) returns (x: seq<byte>)
    requires |b| < 12 && !HalfReadRefusal(1, b)
    ensures |b + x| == 16 && |x| > 4 && (b + x)[8..12] == [0, 0, 0, 1]
  {
    x := Zeros(11 - |b|) + [1] + Zeros(4);
    var e := (b + x)[8..12];
    assert e[0] == 0 && e[1] == 0 && e[2] == 0 && e[3] == 1;
  }

  lemma SameHeader(b: seq<byte>, x: seq<byte>)
    requires |b| >= 12
    ensures var c := b + x;
            && I32(c[8..12]) == I32(b[8..12]) && U16(c[4], c[5]) == U16(b[4], b[5]) && U16(c[6], c[7]) == U16(b[6], b[7])
  {
    assert (b + x)[8..12] == b[8..12];
  }

  lemma TotalStable(b: seq<byte>, x: seq<byte>)
    requires b != [] && 0 < HeaderLength(b[0]) <= |b|
    ensures TotalLength(b + x) == TotalLength(b)
  {
    if |b| >= 8 {
      assert (b + x)[4..8] == b[4..8];
    }
  }

  lemma MessageCompletes(b: seq<byte>) returns (x: seq<byte>)
    requires MessageFrame(b) == Wait
    ensures x != [] && MessageFrame(b + x) == Whole(|b + x|)
  {
    if b == [] {
      x := [2];
      assert b + x == x;
    } else {
      var missing := if |b| < HeaderLength(b[0]) then HeaderLength(b[0]) - |b| else 0;
      var h := b + Zeros(missing);
      assert missing == 0 ==> h == b;
      var body := Zeros(TotalLength(h) - |h|);
      TotalStable(h, body);
      x := Zeros(missing) + body;
      assert b + x == h + body;
    }
  }

  lemma PrefixVerdict(bpp: Option<nat>, pending: nat, b: seq<byte>, wire: seq<byte>)
    requires forall x :: ServerFrame(bpp, pending, wire + x) == Whole(|wire|)
    ensures wire <= b ==> ServerFrame(bpp, pending, b).Whole?
    ensures b < wire ==> ServerFrame(bpp, pending, b).Wait?
  {
    if wire <= b {
      assert wire + b[|wire|..] == b;
    } else if b < wire {
      assert wire + [] == wire && b + wire[|b|..] == wire;
      if ServerFrame(bpp, pending, b) != Wait {
        FrameStable(bpp, pending, b, wire[|b|..]);
      }
    }
  }

  lemma UnitVerdict(bpp: Option<nat>, pending: nat, b: seq<byte>, u: Unit)
    requires Fits(bpp, pending, u)
    ensures Wire(bpp, u) <= b ==> ServerFrame(bpp, pending, b).Whole?
    ensures b < Wire(bpp, u) ==> ServerFrame(bpp, pending, b).Wait?
  {
    forall x ensures ServerFrame(bpp, pending, Wire(bpp, u) + x) == Whole(|Wire(bpp, u)|) {
      PrintedFrame(bpp, pending, u, x);
    }
    PrefixVerdict(bpp, pending, b, Wire(bpp, u));
  }

  /** A unit begins with a zero encoding prefix, so a half-read refusal is the beginning of none. */
  lemma NoUnitBeginsWithRefusal(bpp: Option<nat>, pending: nat, b: seq<byte>, u: Unit)
    requires Fits(bpp, pending, u) && b < Wire(bpp, u)
    ensures !HalfReadRefusal(pending, b)
  {
    if pending > 0 && 8 < |b| < 12 {
      assert forall i | 8 <= i < |b| :: b[i] == Wire(bpp, u)[i];
    }
  }

  /**
   What the filter takes begins with a unit that fits; what it waits on is the beginning of one, or a
   rectangle header whose refusal is decided only at its last encoding byte; it refuses everything else.
   */
  lemma ServerVerdictExact(bpp: Option<nat>, pending: nat, b: seq<byte>)
    ensures ServerFrame(bpp, pending, b).Whole? <==> exists u :: Fits(bpp, pending, u) && Wire(bpp, u) <= b
    ensures ServerFrame(bpp, pending, b).Wait? <==>
              (exists u :: Fits(bpp, pending, u) && b < Wire(bpp, u)) || HalfReadRefusal(pending, b)
    ensures !((exists u :: Fits(bpp, pending, u) && b < Wire(bpp, u)) && HalfReadRefusal(pending, b))
  {
    forall u | Fits(bpp, pending, u)
      ensures Wire(bpp, u) <= b ==> ServerFrame(bpp, pending, b).Whole?
      ensures b < Wire(bpp, u) ==> ServerFrame(bpp, pending, b).Wait?
    {
      UnitVerdict(bpp, pending, b, u);
    }
    forall u | Fits(bpp, pending, u) && b < Wire(bpp, u) ensures !HalfReadRefusal(pending, b) {
      NoUnitBeginsWithRefusal(bpp, pending, b, u);
    }
    match ServerFrame(bpp, pending, b) {
      case Whole(n) =>
        FrameLocal(bpp, pending, b);
        PrintOfDecode(bpp, pending, b[..n]);
        assert Wire(bpp, Decode(bpp, pending, b[..n])) <= b;
      case Wait =>
        if !HalfReadRefusal(pending, b) {
          var x;
          if pending > 0 {
            x := RectCompletes(bpp, b);
          } else {
            x := MessageCompletes(b);
          }
          PrintOfDecode(bpp, pending, b + x);
          assert b < Wire(bpp, Decode(bpp, pending, b + x));
        }
      case Bad =>
    }
  }

  // -- Whole streams -----------------------------------------------------------------------------------

  function FilterUnit(cfg: Config, u: Unit): Option<Unit> {
    if u.CutText? && cfg.blockCutText then None else Some(u)
  }

  function UnitCodec(cfg: Config): Codec<Unit, nat> {
    Codec((pending: nat, u: Unit) => Fits(cfg.bytesPerPixel, pending, u),
          (u: Unit) => Wire(cfg.bytesPerPixel, u),
          (u: Unit) => FilterUnit(cfg, u),
          (pending: nat, u: Unit) => NextPending(pending, u),
          (u: Unit) => u.CutText? && cfg.blockCutText)
  }

  lemma UnitPrintsAs(cfg: Config, pending: nat, u: Unit, x: seq<byte>)
    requires Fits(cfg.bytesPerPixel, pending, u)
    ensures PrintsAs(ServerParser(cfg), UnitCodec(cfg), pending, u, x)
  {
    var w := Wire(cfg.bytesPerPixel, u);
    PrintedFrame(cfg.bytesPerPixel, pending, u, x);
    assert (w + x)[..|w|] == w;
  }

  lemma BufferParses(cfg: Config, pending: nat, b: seq<byte>)
    requires ServerStep(cfg, pending, b).Take?
    ensures Parses(ServerParser(cfg), UnitCodec(cfg), pending, b)
  {
    var raw := b[..ServerFrame(cfg.bytesPerPixel, pending, b).total];
    FrameLocal(cfg.bytesPerPixel, pending, b);
    PrintOfDecode(cfg.bytesPerPixel, pending, raw);
    var c := UnitCodec(cfg);
    assert c.valid(pending, Decode(cfg.bytesPerPixel, pending, raw)) && c.wire(Decode(cfg.bytesPerPixel, pending, raw)) == raw;
  }

  lemma ServerAgrees(cfg: Config)
    ensures Agrees(ServerParser(cfg), UnitCodec(cfg))
  {
    var p, c := ServerParser(cfg), UnitCodec(cfg);
    forall pending: nat, u: Unit, x: seq<byte> | c.valid(pending, u) ensures PrintsAs(p, c, pending, u, x) {
      UnitPrintsAs(cfg, pending, u, x);
    }
    forall pending: nat, b: seq<byte> | p(pending, b).Take? ensures Parses(p, c, pending, b) {
      BufferParses(cfg, pending, b);
    }
  }

  function Announced(units: seq<Unit>): nat {
    if units == [] then 0 else (if units[0].UpdateHeader? then units[0].count else 0) + Announced(units[1..])
  }

  function Rects(units: seq<Unit>): nat {
    if units == [] then 0 else (if units[0].IsRect() then 1 else 0) + Rects(units[1..])
  }

  /** The rectangle counter is always what was announced minus what was consumed. */
  lemma {:induction false} CounterIsAnnouncedMinusConsumed(cfg: Config, pending: nat, units: seq<Unit>)
    requires ValidList(UnitCodec(cfg), pending, units)
    ensures EndState(UnitCodec(cfg), pending, units) == pending + Announced(units) - Rects(units)
    decreases |units|
  {
    if units != [] {
      CounterIsAnnouncedMinusConsumed(cfg, NextPending(pending, units[0]), units[1..]);
    }
  }

  // -- Messages: a framebuffer update with its rectangles is one ----------------------------------------

  datatype ServerMsg = Update(filler: byte, rects: seq<Unit>) | Single(unit: Unit)

  predicate WellFormed(bpp: Option<nat>, m: ServerMsg) {
    match m
    case Update(_, rects) => |rects| < 65536 && forall r <- rects :: r.IsRect() && Sized(bpp, r)
    case Single(u) => Sized(bpp, u) && !u.IsRect() && !u.UpdateHeader?
  }

  function Units(m: ServerMsg): seq<Unit> {
    match m
    case Update(filler, rects) => [UpdateHeader(filler, |rects|)] + rects
    case Single(u) => [u]
  }

  function UnitsOf(msgs: seq<ServerMsg>): seq<Unit> {
    if msgs == [] then [] else Units(msgs[0]) + UnitsOf(msgs[1..])
  }

  function PrintMessages(cfg: Config, msgs: seq<ServerMsg>): seq<byte> {
    PrintAll(UnitCodec(cfg), UnitsOf(msgs))
  }

  predicate IsCutText(m: ServerMsg) {
    m.Single? && m.unit.CutText?
  }

  function WithoutCutText(msgs: seq<ServerMsg>): seq<ServerMsg> {
    if msgs == [] then []
    else (if IsCutText(msgs[0]) then [] else [msgs[0]]) + WithoutCutText(msgs[1..])
  }

  lemma {:induction false} RectsAreValid(cfg: Config, rects: seq<Unit>)
    requires forall r <- rects :: r.IsRect() && Sized(cfg.bytesPerPixel, r)
    ensures ValidList(UnitCodec(cfg), |rects|, rects) && EndState(UnitCodec(cfg), |rects|, rects) == 0
    ensures FilterAll(UnitCodec(cfg), rects) == rects
  {
    if rects != [] {
      RectsAreValid(cfg, rects[1..]);
    }
  }

  lemma MessageIsValid(cfg: Config, m: ServerMsg)
    requires WellFormed(cfg.bytesPerPixel, m)
    ensures ValidList(UnitCodec(cfg), 0, Units(m)) && EndState(UnitCodec(cfg), 0, Units(m)) == 0
    ensures FilterAll(UnitCodec(cfg), Units(m)) == if IsCutText(m) && cfg.blockCutText then [] else Units(m)
  {
    assert Units(m) == [Units(m)[0]] + Units(m)[1..];
    match m
    case Update(filler, rects) =>
      RectsAreValid(cfg, rects);
      assert Units(m)[1..] == rects;
    case Single(u) =>
      assert Units(m)[1..] == [];
  }

  lemma {:induction false} MessagesAreValid(cfg: Config, msgs: seq<ServerMsg>)
    requires forall m <- msgs :: WellFormed(cfg.bytesPerPixel, m)
    ensures ValidList(UnitCodec(cfg), 0, UnitsOf(msgs)) && EndState(UnitCodec(cfg), 0, UnitsOf(msgs)) == 0
    ensures FilterAll(UnitCodec(cfg), UnitsOf(msgs)) ==
              UnitsOf(if cfg.blockCutText then WithoutCutText(msgs) else msgs)
  {
    if msgs != [] {
      MessageIsValid(cfg, msgs[0]);
      MessagesAreValid(cfg, msgs[1..]);
      ValidAppend(UnitCodec(cfg), 0, Units(msgs[0]), UnitsOf(msgs[1..]));
      FilterAllAppend(UnitCodec(cfg), Units(msgs[0]), UnitsOf(msgs[1..]));
      var kept := if IsCutText(msgs[0]) then [] else [msgs[0]];
      var keptLater := WithoutCutText(msgs[1..]);
      assert WithoutCutText(msgs) == kept + keptLater;
      assert kept == [] ==> kept + keptLater == keptLater;
      assert kept != [] ==> (kept + keptLater)[1..] == keptLater;
    }
  }

  /**
   Server framing is exact: for every list of messages, whatever bytes their rectangles hold, the filter
   forwards the stream with exactly the cut-text messages deleted and ends between two messages.
   */
  lemma ServerRunOnMessages(cfg: Config, msgs: seq<ServerMsg>)
    requires forall m <- msgs :: WellFormed(cfg.bytesPerPixel, m)
    ensures Progress(ServerParser(cfg))
    ensures Run(ServerParser(cfg), 0, PrintMessages(cfg, msgs)) ==
              Outcome(PrintMessages(cfg, if cfg.blockCutText then WithoutCutText(msgs) else msgs), [], 0,
                      AnyBlocked(UnitCodec(cfg), UnitsOf(msgs)), false)
  {
    ServerParserSound(cfg);
    ServerAgrees(cfg);
    MessagesAreValid(cfg, msgs);
    EmptyWaits(cfg);
    RunOnMessages(ServerParser(cfg), UnitCodec(cfg), 0, UnitsOf(msgs), []);
    assert PrintMessages(cfg, msgs) + [] == PrintMessages(cfg, msgs);
  }

  lemma EmptyWaits(cfg: Config)
    ensures ServerParser(cfg)(0, []) == NeedMore
  {
  }

  /** The filter remembers a block iff a cut-text message was dropped. */
  lemma BlockedIffCutText(cfg: Config, msgs: seq<ServerMsg>)
    requires forall m <- msgs :: WellFormed(cfg.bytesPerPixel, m)
    ensures AnyBlocked(UnitCodec(cfg), UnitsOf(msgs)) <==> cfg.blockCutText && exists m <- msgs :: IsCutText(m)
  {
    if cfg.blockCutText && exists m <- msgs :: IsCutText(m) {
      var m :| m in msgs && IsCutText(m);
      InUnitsOf(msgs, m, m.unit);
      BlockedUnit(cfg, UnitsOf(msgs), m.unit);
    }
    if AnyBlocked(UnitCodec(cfg), UnitsOf(msgs)) {
      var u := SomeBlocked(cfg, UnitsOf(msgs));
      var m := MessageOf(msgs, u);
      assert IsCutText(m);
    }
  }

  lemma BlockedUnit(cfg: Config, units: seq<Unit>, u: Unit)
    requires u in units && u.CutText? && cfg.blockCutText
    ensures AnyBlocked(UnitCodec(cfg), units)
  {
    assert UnitCodec(cfg).blocked(u);
  }

  lemma SomeBlocked(cfg: Config, units: seq<Unit>) returns (u: Unit)
    requires AnyBlocked(UnitCodec(cfg), units)
    ensures u in units && u.CutText? && cfg.blockCutText
  {
    u :| u in units && UnitCodec(cfg).blocked(u);
  }

  lemma {:induction false} InUnitsOf(msgs: seq<ServerMsg>, m: ServerMsg, u: Unit)
    requires m in msgs && u in Units(m)
    ensures u in UnitsOf(msgs)
  {
    if m != msgs[0] {
      assert m in msgs[1..];
      InUnitsOf(msgs[1..], m, u);
    }
  }

  lemma {:induction false} MessageOf(msgs: seq<ServerMsg>, u: Unit) returns (m: ServerMsg)
    requires u in UnitsOf(msgs)
    ensures m in msgs && u in Units(m)
  {
    if u in Units(msgs[0]) {
      m := msgs[0];
    } else {
      assert u in UnitsOf(msgs[1..]);
      m := MessageOf(msgs[1..], u);
    }
  }

  /** A valid unit is forwarded only if it is not cut text in a blocked direction. */
  lemma {:induction false} FilteredHasNoCutText(cfg: Config, pending: nat, units: seq<Unit>)
    ensures cfg.blockCutText ==> forall u <- FilterAll(UnitCodec(cfg), units) :: !u.CutText?
    decreases |units|
  {
    if units != [] {
      FilteredHasNoCutText(cfg, NextPending(pending, units[0]), units[1..]);
    }
  }

  /**
   No leak on arbitrary bytes: whatever chunks arrive, everything forwarded is a valid sequence of complete
   units the stream began with, minus blocked cut text; the rectangle counter of a stream that did not fail
   accounts for all of it; and a second filter would forward the output unchanged.
   */
  lemma ServerNoLeak(cfg: Config, pending: nat, buf: seq<byte>, chunks: seq<seq<byte>>)
      returns (units: seq<Unit>, pending': nat)
    ensures Progress(ServerParser(cfg))
    ensures var c := UnitCodec(cfg);
            var out := Relay(ServerParser(cfg), pending, buf, chunks).out;
            && ValidList(c, pending, units) && PrintAll(c, units) <= buf + Flatten(chunks)
            && out == PrintAll(c, FilterAll(c, units))
            && (var r := Relay(ServerParser(cfg), pending, buf, chunks);
                !r.failed ==> PrintAll(c, units) + r.rest == buf + Flatten(chunks)
                              && r.state == pending + Announced(units) - Rects(units))
            && ValidList(c, pending, FilterAll(c, units))
            && (cfg.blockCutText ==> forall u <- FilterAll(c, units) :: !u.CutText?)
            && Passes(ServerParser(cfg), pending, out, pending')
  {
    ServerParserSound(cfg);
    ServerAgrees(cfg);
    units := RelayForwards(ServerParser(cfg), UnitCodec(cfg), pending, buf, chunks);
    CounterIsAnnouncedMinusConsumed(cfg, pending, units);
    pending' := RelayIdempotent(ServerParser(cfg), pending, buf, chunks);
    FilteredValid(ServerParser(cfg), UnitCodec(cfg), pending, units);
    FilteredHasNoCutText(cfg, pending, units);
  }

  // -- A pixel format that changes while the stream is relayed -------------------------------------------

  function ParserFor(block: bool): Family<Option<nat>, nat> {
    format => ServerParser(Config(block, format))
  }

  function CodecFor(block: bool): CodecFamily<Option<nat>, Unit, nat> {
    format => UnitCodec(Config(block, format))
  }

  lemma FamilySound(block: bool)
    ensures AllProgress(ParserFor(block))
    ensures forall format :: Stable(ParserFor(block)(format)) && Replayable(ParserFor(block)(format))
    ensures forall format :: Agrees(ParserFor(block)(format), CodecFor(block)(format))
  {
    forall format
      ensures Progress(ParserFor(block)(format)) && Agrees(ParserFor(block)(format), CodecFor(block)(format))
      ensures Stable(ParserFor(block)(format)) && Replayable(ParserFor(block)(format))
    {
      ServerParserSound(Config(block, format));
      ServerAgrees(Config(block, format));
    }
  }

  function Joined(parts: seq<seq<Unit>>): seq<Unit> {
    if parts == [] then [] else parts[0] + Joined(parts[1..])
  }

  lemma {:induction false} CountsAppend(a: seq<Unit>, b: seq<Unit>)
    ensures Announced(a + b) == Announced(a) + Announced(b) && Rects(a + b) == Rects(a) + Rects(b)
  {
    if a == [] {
      assert a + b == b;
    } else {
      assert (a + b)[1..] == a[1..] + b;
      CountsAppend(a[1..], b);
    }
  }

  lemma {:induction false} PartsCount(block: bool, formats: seq<Option<nat>>, pending: nat, parts: seq<seq<Unit>>)
    requires ValidParts(CodecFor(block), formats, pending, parts)
    ensures EndOfParts(CodecFor(block), formats, pending, parts) == pending + Announced(Joined(parts)) - Rects(Joined(parts))
    decreases |parts|
  {
    if parts != [] {
      var cfg := Config(block, formats[0]);
      CounterIsAnnouncedMinusConsumed(cfg, pending, parts[0]);
      CountsAppend(parts[0], Joined(parts[1..]));
      PartsCount(block, formats[1..], EndState(UnitCodec(cfg), pending, parts[0]), parts[1..]);
    }
  }

  /**
   No leak, whatever the client renegotiates meanwhile: what is forwarded is complete units the stream began
   with, each valid under the format in force as its end arrived, minus blocked cut text; unless the filter
   refused, they and the leftover are the whole input and the counter is announced minus consumed.  Filtering
   what was forwarded of each chunk again, under the same formats, changes nothing.
   */
  lemma ChangingNoLeak(block: bool, formats: seq<Option<nat>>, pending: nat, buf: seq<byte>, chunks: seq<seq<byte>>)
      returns (parts: seq<seq<Unit>>, pending': nat)
    requires |formats| == |chunks|
    ensures AllProgress(ParserFor(block))
    ensures var c := CodecFor(block);
            var r := ChangingRelay(ParserFor(block), formats, pending, buf, chunks);
            && ValidParts(c, formats, pending, parts) && WireParts(c, formats, parts) <= buf + Flatten(chunks)
            && r.out == WireParts(c, formats, FilterParts(c, formats, parts))
            && (block ==> forall part <- FilterParts(c, formats, parts), u: Unit <- part :: !u.CutText?)
            && (var outs := ChangingOutputs(ParserFor(block), formats, pending, buf, chunks);
                Flatten(outs) == r.out
                && ChangingRelay(ParserFor(block), formats, pending, [], outs) == Outcome(r.out, [], pending', false, false))
            && (!r.failed ==> WireParts(c, formats, parts) + r.rest == buf + Flatten(chunks)
                              && r.state == pending + Announced(Joined(parts)) - Rects(Joined(parts)))
  {
    FamilySound(block);
    parts := ChangingForwards(ParserFor(block), CodecFor(block), formats, pending, buf, chunks);
    PartsCount(block, formats, pending, parts);
    pending' := ChangingIdempotent(ParserFor(block), formats, pending, buf, chunks);
    var kept := FilterParts(CodecFor(block), formats, parts);
    forall i | 0 <= i < |kept| && block ensures forall u: Unit <- kept[i] :: !u.CutText? {
      FilteredHasNoCutText(Config(block, formats[i]), 0, parts[i]);
    }
  }
}
