/**
 The client-to-server half of the clipboard filter: the message grammar noVNC speaks (RFC 6143 section 7.5
 plus the extension types the filter knows), the framing decision the filter takes on a raw buffer, and the
 proof that the two agree in both directions.
 */
module RfbClient {
  import opened Wrappers
  import opened RfbBytes
  import opened StreamParser
  import opened WireCodec

  /** What a filter instance was told to enforce. */
  datatype Config = Config(blockCutText: bool, restrict: bool) {
    predicate Passive() {
      !blockCutText && !restrict
    }
  }

  // -- Grammar: abstract messages and their wire form --------------------------------------------------

  datatype ClientMsg =
    | SetPixelFormat(pad: seq<byte>, bitsPerPixel: byte, rest: seq<byte>)
    | SetEncodings(filler: byte, encodings: seq<int>)
    | FramebufferUpdateRequest(body: seq<byte>)
    | KeyEvent(body: seq<byte>)
    | PointerEvent(body: seq<byte>)
    | ClientCutText(pad: seq<byte>, extended: bool, text: seq<byte>)
    | EnableContinuousUpdates(body: seq<byte>)
    | ClientFence(head: seq<byte>, payload: seq<byte>)
    | Xvp(body: seq<byte>)
    | SetDesktopSize(head: seq<byte>, count: byte, filler: byte, screens: seq<byte>)
    | QemuKeyEvent(body: seq<byte>)

  predicate AllI32(values: seq<int>) {
    forall i | 0 <= i < |values| :: -I32_LIMIT <= values[i] < I32_LIMIT
  }

  predicate WellFormed(m: ClientMsg) {
    match m
    case SetPixelFormat(pad, _, rest) => |pad| == 3 && |rest| == 15
    case SetEncodings(_, encodings) => |encodings| < 65536 && AllI32(encodings)
    case FramebufferUpdateRequest(body) => |body| == 9
    case KeyEvent(body) => |body| == 7
    case PointerEvent(body) => |body| == 5
    case ClientCutText(pad, extended, text) =>
      |pad| == 3 && (if extended then 0 < |text| <= I32_LIMIT else |text| < I32_LIMIT)
    case EnableContinuousUpdates(body) => |body| == 9
    case ClientFence(head, payload) => |head| == 7 && |payload| < 256
    case Xvp(body) => |body| == 3
    case SetDesktopSize(head, count, _, screens) => |head| == 5 && |screens| == 16 * (count as nat)
    case QemuKeyEvent(body) => |body| == 10
  }

  function Words(values: seq<int>): (b: seq<byte>)
    requires AllI32(values)
    ensures |b| == 4 * |values|
  {
    if values == [] then [] else EncI32(values[0]) + Words(values[1..])
  }

  function Print(m: ClientMsg): (b: seq<byte>)
    requires WellFormed(m)
    ensures |b| > 0
  {
    match m
    case SetPixelFormat(pad, bpp, rest) => [0] + pad + [bpp] + rest
    case SetEncodings(filler, encodings) => [2, filler] + EncU16(|encodings|) + Words(encodings)
    case FramebufferUpdateRequest(body) => [3] + body
    case KeyEvent(body) => [4] + body
    case PointerEvent(body) => [5] + body
    case ClientCutText(pad, extended, text) => [6] + pad + EncI32(if extended then -|text| else |text|) + text
    case EnableContinuousUpdates(body) => [150] + body
    case ClientFence(head, payload) => [248] + head + [|payload|] + payload
    case Xvp(body) => [250] + body
    case SetDesktopSize(head, count, filler, screens) => [251] + head + [count, filler] + screens
    case QemuKeyEvent(body) => [255, 0] + body
  }

  /** The type byte and the length of each kind of message on the wire. */
  lemma WireExactly(m: ClientMsg)
    requires WellFormed(m)
    ensures Print(m)[0] == match m
                           case SetPixelFormat(_, _, _) => 0
                           case SetEncodings(_, _) => 2
                           case FramebufferUpdateRequest(_) => 3
                           case KeyEvent(_) => 4
                           case PointerEvent(_) => 5
                           case ClientCutText(_, _, _) => 6
                           case EnableContinuousUpdates(_) => 150
                           case ClientFence(_, _) => 248
                           case Xvp(_) => 250
                           case SetDesktopSize(_, _, _, _) => 251
                           case QemuKeyEvent(_) => 255
    ensures |Print(m)| == match m
                          case SetPixelFormat(_, _, _) => 20
                          case SetEncodings(_, encodings) => 4 + 4 * |encodings|
                          case FramebufferUpdateRequest(_) | EnableContinuousUpdates(_) => 10
                          case KeyEvent(_) => 8
                          case PointerEvent(_) => 6
                          case ClientCutText(_, _, text) => 8 + |text|
                          case ClientFence(_, payload) => 9 + |payload|
                          case Xvp(_) => 4
                          case SetDesktopSize(_, count, _, _) => 8 + 16 * (count as nat)
                          case QemuKeyEvent(_) => 12
  {
    if m.SetEncodings? {
      assert |Words(m.encodings)| == 4 * |m.encodings|;
    }
  }

  /** What may still be forwarded in place of a message. */
  function FilterMsg(cfg: Config, m: ClientMsg): Option<ClientMsg> {
    if m.ClientCutText? && cfg.blockCutText then None
    else if m.SetEncodings? && cfg.restrict then Some(FORCED)
    else Some(m)
  }

  /** CopyRect and Raw, the only encodings with computable rectangle lengths. */
  const FORCED: ClientMsg := SetEncodings(0, [1, 0])

  const FORCED_WIRE: seq<byte> := [2, 0, 0, 2, 0, 0, 0, 1, 0, 0, 0, 0]

  // -- The framing decision of `_take_one` -------------------------------------------------------------

  /** How many bytes must be there before the length of a message of type `t` is known; 0 if unknown. */
  function HeaderLength(t: byte): nat {
    match t
    case 2 => 4
    case 6 | 251 => 8
    case 248 => 9
    case 255 => 2
    case 0 | 3 | 4 | 5 | 150 | 250 => 1
    case _ => 0
  }

  /** The whole length a message announces in its header. */
  function TotalLength(b: seq<byte>): (n: nat)
    requires b != [] && 0 < HeaderLength(b[0]) <= |b|
    ensures n >= HeaderLength(b[0])
  {
    match b[0]
    case 0 => 20
    case 2 => 4 + 4 * U16(b[2], b[3])
    case 3 | 150 => 10
    case 4 => 8
    case 5 => 6
    case 6 => 8 + Abs(I32(b[4..8]))
    case 248 => 9 + b[8] as nat
    case 250 => 4
    case 251 => 8 + 16 * (b[6] as nat)
    case _ => 12
  }

  function ClientFrame(b: seq<byte>): (f: Frame)
    ensures f.Whole? ==> 0 < f.total <= |b|
  {
    if b == [] then Wait
    else if HeaderLength(b[0]) == 0 then Bad
    else if |b| < HeaderLength(b[0]) then Wait
    else if b[0] == 255 && b[1] != 0 then Bad
    else AtLeast(b, TotalLength(b))
  }

  function Forward(cfg: Config, raw: seq<byte>): seq<byte>
    requires raw != []
  {
    if raw[0] == 2 && cfg.restrict then FORCED_WIRE
    else if raw[0] == 6 && cfg.blockCutText then []
    else raw
  }

  /** One `_take_one`: the state is the shared bytes-per-pixel, which only SetPixelFormat sets. */
  function ClientStep(cfg: Config, fmt: Option<nat>, b: seq<byte>): Step<Option<nat>> {
    match ClientFrame(b)
    case Wait => NeedMore
    case Bad => Malformed
    case Whole(n) =>
      Take(n, Forward(cfg, b[..n]), if b[0] == 0 then Some(b[4] / 8) else fmt, b[0] == 6 && cfg.blockCutText)
  }

  function ClientParser(cfg: Config): Parser<Option<nat>> {
    (fmt: Option<nat>, b: seq<byte>) => ClientStep(cfg, fmt, b)
  }

  // -- The decision is stable, local and replayable ----------------------------------------------------

  lemma FrameStable(b: seq<byte>, x: seq<byte>)
    requires ClientFrame(b) != Wait
    ensures ClientFrame(b + x) == ClientFrame(b)
  {
    if |b| >= 8 {
      assert (b + x)[4..8] == b[4..8];
    }
  }

  lemma FrameLocal(b: seq<byte>)
    requires ClientFrame(b).Whole?
    ensures ClientFrame(b[..ClientFrame(b).total]) == ClientFrame(b)
  {
    var raw := b[..ClientFrame(b).total];
    if |raw| >= 8 {
      assert raw[4..8] == b[4..8];
    }
  }

  lemma ForcedWellFormed()
    ensures WellFormed(FORCED)
  {
  }

  lemma SmallWords(a: byte, b: byte)
    ensures Words([a, b]) == [0, 0, 0, a, 0, 0, 0, b]
  {
    EncI32Small(a);
    EncI32Small(b);
    var ea, eb := EncI32(a), EncI32(b);
    assert [a, b][1..] == [b] && [b][1..] == [];
    assert Words([b]) == eb + Words([]);
    assert Words([a, b]) == ea + Words([b]);
    assert ea + eb == [0, 0, 0, a, 0, 0, 0, b];
  }

  lemma ForcedWords()
    ensures [2, 0] + EncU16(2) + Words([1, 0]) == FORCED_WIRE
  {
    SmallWords(1, 0);
    TwoEncodings();
    assert [2, 0] + [0, 2] + [0, 0, 0, 1, 0, 0, 0, 0] == FORCED_WIRE;
  }

  lemma TwoEncodings()
    ensures EncU16(2) == [0, 2]
  {
    EncU16OfU16(0, 2);
  }

  lemma ForcedPrint()
    ensures WellFormed(FORCED) && Print(FORCED) == FORCED_WIRE
  {
    ForcedWords();
  }

  lemma ForcedFrame(x: seq<byte>)
    ensures ClientFrame(FORCED_WIRE + x) == Whole(12)
  {
    var b := FORCED_WIRE + x;
    assert b[0] == 2 && b[2] == 0 && b[3] == 2;
  }

  lemma ClientParserSound(cfg: Config)
    ensures Progress(ClientParser(cfg)) && Stable(ClientParser(cfg))
    ensures Local(ClientParser(cfg)) && Replayable(ClientParser(cfg))
  {
    var p := ClientParser(cfg);
    forall fmt: Option<nat>, b: seq<byte>, x: seq<byte> | !p(fmt, b).NeedMore? ensures p(fmt, b + x) == p(fmt, b) {
      FrameStable(b, x);
      if ClientFrame(b).Whole? {
        assert (b + x)[..ClientFrame(b).total] == b[..ClientFrame(b).total];
      }
    }
    forall fmt: Option<nat>, b: seq<byte> | p(fmt, b).Take? ensures p(fmt, b[..p(fmt, b).consumed]) == p(fmt, b) {
      FrameLocal(b);
      var raw := b[..p(fmt, b).consumed];
      assert raw[..p(fmt, b).consumed] == raw;
    }
    forall fmt: Option<nat>, b: seq<byte>, x: seq<byte> | p(fmt, b).Take?
      ensures var t := p(fmt, b);
              if t.out == [] then t.next == fmt else p(fmt, t.out + x) == Take(|t.out|, t.out, t.next, false)
    {
      ForwardReplays(cfg, fmt, b, x);
    }
  }

  lemma ForwardReplays(cfg: Config, fmt: Option<nat>, b: seq<byte>, x: seq<byte>)
    requires ClientStep(cfg, fmt, b).Take?
    ensures var t := ClientStep(cfg, fmt, b);
            if t.out == [] then t.next == fmt
            else ClientStep(cfg, fmt, t.out + x) == Take(|t.out|, t.out, t.next, false)
  {
    var n := ClientFrame(b).total;
    var raw := b[..n];
    if raw[0] == 2 && cfg.restrict {
      ForcedFrame(x);
      assert (FORCED_WIRE + x)[..12] == FORCED_WIRE;
    } else if !(raw[0] == 6 && cfg.blockCutText) {
      UntouchedReplays(cfg, fmt, b, x);
    }
  }

  lemma UntouchedReplays(cfg: Config, fmt: Option<nat>, b: seq<byte>, x: seq<byte>)
    requires ClientFrame(b).Whole?
    requires !(b[0] == 2 && cfg.restrict) && !(b[0] == 6 && cfg.blockCutText)
    ensures var raw := b[..ClientFrame(b).total];
            ClientStep(cfg, fmt, raw + x) == ClientStep(cfg, fmt, b)
  {
    var n := ClientFrame(b).total;
    var raw := b[..n];
    FrameLocal(b);
    FrameStable(raw, x);
    assert (raw + x)[..n] == raw;
    if b[0] == 0 {
      assert n == 20 && (raw + x)[4] == b[4];
    }
  }

  // -- Printer and parser agree ------------------------------------------------------------------------

  /** Every well-formed message is framed exactly, whatever follows it. */
  lemma PrintedFrame(m: ClientMsg, x: seq<byte>)
    requires WellFormed(m)
    ensures ClientFrame(Print(m) + x) == Whole(|Print(m)|)
  {
    if m.SetEncodings? || m.ClientCutText? {
      PrintedComputed(m, x);
    } else if m.ClientFence? || m.SetDesktopSize? || m.QemuKeyEvent? {
      PrintedCounted(m, x);
    } else {
      PrintedFixed(m, x);
    }
  }

  lemma PrintedComputed(m: ClientMsg, x: seq<byte>)
    requires WellFormed(m) && (m.SetEncodings? || m.ClientCutText?)
    ensures ClientFrame(Print(m) + x) == Whole(|Print(m)|)
  {
    match m
    case ClientCutText(pad, extended, text) =>
      CutTextAnnounces(6, pad, if extended then -|text| else |text|, text, x);
    case SetEncodings(filler, encodings) =>
      PrintedSetEncodings([2, filler], |encodings|, Words(encodings), x);
  }

  lemma PrintedCounted(m: ClientMsg, x: seq<byte>)
    requires WellFormed(m) && (m.ClientFence? || m.SetDesktopSize? || m.QemuKeyEvent?)
    ensures ClientFrame(Print(m) + x) == Whole(|Print(m)|)
  {
    match m
    case ClientFence(head, payload) => PrintedFence(head, payload, x);
    case SetDesktopSize(head, count, filler, screens) => PrintedDesktopSize(head, count, filler, screens, x);
    case QemuKeyEvent(body) => PrintedQemu(body, x);
  }

  lemma PrintedFixed(m: ClientMsg, x: seq<byte>)
    requires WellFormed(m)
    requires m.SetPixelFormat? || m.FramebufferUpdateRequest? || m.KeyEvent? || m.PointerEvent? || m.EnableContinuousUpdates? || m.Xvp?
    ensures ClientFrame(Print(m) + x) == Whole(|Print(m)|)
  {
    match m
    case SetPixelFormat(pad, bpp, rest) => FixedFrame([0] + pad + [bpp] + rest, x);
    case FramebufferUpdateRequest(body) => FixedFrame([3] + body, x);
    case KeyEvent(body) => FixedFrame([4] + body, x);
    case PointerEvent(body) => FixedFrame([5] + body, x);
    case EnableContinuousUpdates(body) => FixedFrame([150] + body, x);
    case Xvp(body) => FixedFrame([250] + body, x);
  }

  lemma FixedFrame(w: seq<byte>, x: seq<byte>)
    requires w != [] && w[0] in {0, 3, 4, 5, 150, 250} && |w| == TotalLength(w)
    ensures ClientFrame(w + x) == Whole(|w|)
  {
    assert (w + x)[0] == w[0];
  }

  lemma PrintedFence(head: seq<byte>, payload: seq<byte>, x: seq<byte>)
    requires |head| == 7 && |payload| < 256
    ensures ClientFrame([248] + head + [|payload|] + payload + x) == Whole(9 + |payload|)
  {
    var b := [248] + head + [|payload|] + payload + x;
    assert b[0] == 248 && b[8] == |payload|;
  }

  lemma PrintedDesktopSize(head: seq<byte>, count: byte, filler: byte, screens: seq<byte>, x: seq<byte>)
    requires |head| == 5 && |screens| == 16 * (count as nat)
    ensures ClientFrame([251] + head + [count, filler] + screens + x) == Whole(8 + |screens|)
  {
    var b := [251] + head + [count, filler] + screens + x;
    assert b[0] == 251 && b[6] == count;
  }

  lemma PrintedQemu(body: seq<byte>, x: seq<byte>)
    requires |body| == 10
    ensures ClientFrame([255, 0] + body + x) == Whole(12)
  {
    var b := [255, 0] + body + x;
    assert b[0] == 255 && b[1] == 0;
  }

  lemma PrintedSetEncodings(start: seq<byte>, count: nat, words: seq<byte>, x: seq<byte>)
    requires |start| == 2 && start[0] == 2 && count < 65536 && |words| == 4 * count
    ensures ClientFrame(start + EncU16(count) + words + x) == Whole(4 + |words|)
  {
    var e := EncU16(count);
    var b := start + e + words + x;
    assert b[2] == e[0] && b[3] == e[1];
  }

  function ReadWords(b: seq<byte>): (values: seq<int>)
    requires |b| % 4 == 0
    ensures |values| == |b| / 4 && AllI32(values)
  {
    if b == [] then [] else [I32(b[..4])] + ReadWords(b[4..])
  }

  lemma {:induction false} WordsOfReadWords(b: seq<byte>)
    requires |b| % 4 == 0
    ensures Words(ReadWords(b)) == b
  {
    if b != [] {
      WordsOfReadWords(b[4..]);
      EncI32OfI32(b[..4]);
      assert ReadWords(b)[1..] == ReadWords(b[4..]);
    }
  }

  lemma {:induction false} ReadWordsOfWords(values: seq<int>)
    requires AllI32(values)
    ensures ReadWords(Words(values)) == values
  {
    if values != [] {
      ReadWordsOfWords(values[1..]);
      var b := Words(values);
      assert b[..4] == EncI32(values[0]) && b[4..] == Words(values[1..]);
    }
  }

  /** The message a complete frame stands for. */
  function Decode(raw: seq<byte>): ClientMsg
    requires ClientFrame(raw) == Whole(|raw|)
  {
    match raw[0]
    case 0 => SetPixelFormat(raw[1..4], raw[4], raw[5..])
    case 2 => SetEncodings(raw[1], ReadWords(raw[4..]))
    case 3 => FramebufferUpdateRequest(raw[1..])
    case 4 => KeyEvent(raw[1..])
    case 5 => PointerEvent(raw[1..])
    case 6 => ClientCutText(raw[1..4], I32(raw[4..8]) < 0, raw[8..])
    case 150 => EnableContinuousUpdates(raw[1..])
    case 248 => ClientFence(raw[1..8], raw[9..])
    case 250 => Xvp(raw[1..])
    case 251 => SetDesktopSize(raw[1..6], raw[6], raw[7], raw[8..])
    case _ => QemuKeyEvent(raw[2..])
  }

  /** Every complete frame is the wire form of a well-formed message. */
  lemma PrintOfDecode(raw: seq<byte>)
    requires ClientFrame(raw) == Whole(|raw|)
    ensures WellFormed(Decode(raw)) && Print(Decode(raw)) == raw
  {
    match raw[0]
    case 0 => Reassembled(raw, 1, 4, 5);
    case 2 => PrintOfSetEncodings(raw);
    case 6 => CutTextReassembled(raw);
    case 248 => Reassembled(raw, 1, 8, 9);
    case 251 => PrintOfDesktopSize(raw);
    case 255 => PrintOfQemu(raw);
    case _ => TypeAndBody(raw);
  }

  lemma Reassembled(raw: seq<byte>, i: nat, j: nat, k: nat)
    requires i == 1 <= j && k == j + 1 <= |raw|
    ensures [raw[0]] + raw[i..j] + [raw[j]] + raw[k..] == raw
  {
  }

  lemma PrintOfDesktopSize(raw: seq<byte>)
    requires |raw| >= 8
    ensures [raw[0]] + raw[1..6] + [raw[6], raw[7]] + raw[8..] == raw
  {
  }

  lemma PrintOfQemu(raw: seq<byte>)
    requires |raw| >= 2
    ensures [raw[0], raw[1]] + raw[2..] == raw
  {
  }

  lemma PrintOfSetEncodings(raw: seq<byte>)
    requires |raw| >= 4 && |raw| == 4 + 4 * U16(raw[2], raw[3])
    ensures var encodings := ReadWords(raw[4..]);
            && |encodings| == U16(raw[2], raw[3])
            && [raw[0], raw[1]] + EncU16(|encodings|) + Words(encodings) == raw
  {
    WordsOfReadWords(raw[4..]);
    EncU16OfU16(raw[2], raw[3]);
    assert raw == [raw[0], raw[1]] + [raw[2], raw[3]] + raw[4..];
  }

  /** The wire form determines the message. */
  lemma DecodeOfPrint(m: ClientMsg)
    requires WellFormed(m)
    ensures ClientFrame(Print(m)) == Whole(|Print(m)|) && Decode(Print(m)) == m
  {
    PrintedFrame(m, []);
    assert Print(m) + [] == Print(m);
    if m.SetEncodings? || m.ClientCutText? {
      DecodeOfComputed(m);
    } else {
      DecodeOfPlain(m);
    }
  }

  lemma DecodeOfComputed(m: ClientMsg)
    requires WellFormed(m) && (m.SetEncodings? || m.ClientCutText?)
    requires ClientFrame(Print(m)) == Whole(|Print(m)|)
    ensures Decode(Print(m)) == m
  {
    match m
    case SetEncodings(filler, encodings) => SetEncodingsFields(filler, encodings);
    case ClientCutText(pad, extended, text) => CutTextFields(pad, if extended then -|text| else |text|, text);
  }

  lemma DecodeOfPlain(m: ClientMsg)
    requires WellFormed(m) && !m.SetEncodings? && !m.ClientCutText?
    requires ClientFrame(Print(m)) == Whole(|Print(m)|)
    ensures Decode(Print(m)) == m
  {
    if m.SetPixelFormat? || m.ClientFence? || m.SetDesktopSize? || m.QemuKeyEvent? {
      DecodeOfFields(m);
    } else {
      DecodeOfBody(m);
    }
  }

  lemma DecodeOfFields(m: ClientMsg)
    requires WellFormed(m) && (m.SetPixelFormat? || m.ClientFence? || m.SetDesktopSize? || m.QemuKeyEvent?)
    requires ClientFrame(Print(m)) == Whole(|Print(m)|)
    ensures Decode(Print(m)) == m
  {
    match m
    case SetPixelFormat(pad, bpp, rest) => FieldsAround([0], pad, [bpp], rest);
    case ClientFence(head, payload) => FieldsAround([248], head, [|payload|], payload);
    case SetDesktopSize(_, _, _, _) => DecodeOfDesktopSize(m);
    case QemuKeyEvent(body) => FieldsAround([255, 0], body, [], []);
  }

  lemma DecodeOfDesktopSize(m: ClientMsg)
    requires WellFormed(m) && m.SetDesktopSize?
    requires ClientFrame(Print(m)) == Whole(|Print(m)|)
    ensures Decode(Print(m)) == m
  {
    FieldsAround([251], m.head, [m.count, m.filler], m.screens);
  }

  lemma DecodeOfBody(m: ClientMsg)
    requires WellFormed(m)
    requires m.FramebufferUpdateRequest? || m.KeyEvent? || m.PointerEvent? || m.EnableContinuousUpdates? || m.Xvp?
    requires ClientFrame(Print(m)) == Whole(|Print(m)|)
    ensures Decode(Print(m)) == m
  {
    match m
    case FramebufferUpdateRequest(body) => FieldsAround([3], body, [], []);
    case KeyEvent(body) => FieldsAround([4], body, [], []);
    case PointerEvent(body) => FieldsAround([5], body, [], []);
    case EnableContinuousUpdates(body) => FieldsAround([150], body, [], []);
    case Xvp(body) => FieldsAround([250], body, [], []);
  }

  /** Reading back the parts of a concatenation. */
  lemma FieldsAround(a: seq<byte>, b: seq<byte>, c: seq<byte>, d: seq<byte>)
    ensures var w := a + b + c + d;
            && w[|a|..|a| + |b|] == b
            && w[|a| + |b| + |c|..] == d
            && (c == [] && d == [] ==> w == a + b && w[|a|..] == b)
            && (forall i | 0 <= i < |c| :: w[|a| + |b| + i] == c[i])
  {
  }

  lemma SetEncodingsFields(filler: byte, encodings: seq<int>)
    requires |encodings| < 65536 && AllI32(encodings)
    ensures var b := [2, filler] + EncU16(|encodings|) + Words(encodings);
            |b[4..]| % 4 == 0 && ReadWords(b[4..]) == encodings
  {
    ReadWordsOfWords(encodings);
    var b := [2, filler] + EncU16(|encodings|) + Words(encodings);
    assert b[4..] == Words(encodings);
  }

  lemma CutTextFields(pad: seq<byte>, length: int, text: seq<byte>)
    requires |pad| == 3 && -I32_LIMIT <= length < I32_LIMIT
    ensures var b := [6] + pad + EncI32(length) + text;
            b[1..4] == pad && I32(b[4..8]) == length && b[8..] == text
  {
    var e := EncI32(length);
    var b := [6] + pad + e + text;
    assert b[1..4] == pad && b[4..8] == e && b[8..] == text;
  }

  /** A buffer the filter waits on can still be completed to a message. */
  lemma WaitCompletes(b: seq<byte>) returns (x: seq<byte>)
    requires ClientFrame(b) == Wait
    ensures x != [] && ClientFrame(b + x) == Whole(|b + x|)
  {
    if b == [] {
      x := [5] + Zeros(5);
      assert b + x == x;
    } else {
      var missing := if |b| < HeaderLength(b[0]) then HeaderLength(b[0]) - |b| else 0;
      var h := b + Zeros(missing);
      assert missing == 0 ==> h == b;
      var body := Zeros(TotalLength(h) - |h|);
      TotalStable(h, body);
      x := Zeros(missing) + body;
      assert b + x == h + body;
    }
  }

  lemma TotalStable(b: seq<byte>, x: seq<byte>)
    requires b != [] && 0 < HeaderLength(b[0]) <= |b|
    ensures TotalLength(b + x) == TotalLength(b)
  {
    if b[0] == 6 {
      assert (b + x)[4..8] == b[4..8];
    }
  }

  lemma MessageVerdict(b: seq<byte>, m: ClientMsg)
    requires WellFormed(m)
    ensures Print(m) <= b ==> ClientFrame(b).Whole?
    ensures b < Print(m) ==> ClientFrame(b).Wait?
  {
    var wire := Print(m);
    if wire <= b {
      PrintedFrame(m, b[|wire|..]);
      assert wire + b[|wire|..] == b;
    } else if b < wire {
      PrintedFrame(m, []);
      assert wire + [] == wire && b + wire[|b|..] == wire;
      if ClientFrame(b) != Wait {
        FrameStable(b, wire[|b|..]);
      }
    }
  }

  /** The three verdicts, each exactly: taken, waited on, refused. */
  lemma VerdictExact(b: seq<byte>)
    ensures ClientFrame(b).Whole? <==> exists m :: WellFormed(m) && Print(m) <= b
    ensures ClientFrame(b).Wait? <==> exists m :: WellFormed(m) && b < Print(m)
    ensures ClientFrame(b).Bad? <==> forall m :: WellFormed(m) ==> !(Print(m) <= b) && !(b <= Print(m))
  {
    forall m | WellFormed(m)
      ensures Print(m) <= b ==> ClientFrame(b).Whole?
      ensures b < Print(m) ==> ClientFrame(b).Wait?
    {
      MessageVerdict(b, m);
    }
    match ClientFrame(b) {
      case Whole(n) =>
        FrameLocal(b);
        PrintOfDecode(b[..n]);
        assert Print(Decode(b[..n])) <= b;
      case Wait =>
        var x := WaitCompletes(b);
        PrintOfDecode(b + x);
        assert b < Print(Decode(b + x));
      case Bad =>
    }
  }

  // -- Whole streams -----------------------------------------------------------------------------------

  function Wire(m: ClientMsg): seq<byte> {
    if WellFormed(m) then Print(m) else []
  }

  function NextFormat(fmt: Option<nat>, m: ClientMsg): Option<nat> {
    if m.SetPixelFormat? then Some(m.bitsPerPixel / 8) else fmt
  }

  /** The grammar as a codec of `WireCodec`: message validity does not depend on the state here. */
  function ClientCodec(cfg: Config): Codec<ClientMsg, Option<nat>> {
    Codec((fmt: Option<nat>, m: ClientMsg) => WellFormed(m),
          (m: ClientMsg) => Wire(m),
          (m: ClientMsg) => FilterMsg(cfg, m),
          (fmt: Option<nat>, m: ClientMsg) => NextFormat(fmt, m),
          (m: ClientMsg) => m.ClientCutText? && cfg.blockCutText)
  }

  /** The first bytes of a message tell the three kinds apart that the filter treats specially. */
  lemma KindOfPrint(m: ClientMsg)
    requires WellFormed(m)
    ensures var w := Print(m);
            && (w[0] == 2 <==> m.SetEncodings?)
            && (w[0] == 6 <==> m.ClientCutText?)
            && (w[0] == 0 <==> m.SetPixelFormat?)
            && (m.SetPixelFormat? ==> |w| == 20 && w[4] == m.bitsPerPixel)
  {
  }

  lemma StepOnFrame(cfg: Config, fmt: Option<nat>, w: seq<byte>, x: seq<byte>)
    requires ClientFrame(w + x) == Whole(|w|)
    ensures w != [] && (w[0] == 0 ==> |w| == 20)
    ensures ClientStep(cfg, fmt, w + x) ==
              Take(|w|, Forward(cfg, w), if w[0] == 0 then Some(w[4] / 8) else fmt, w[0] == 6 && cfg.blockCutText)
  {
    assert (w + x)[..|w|] == w;
  }

  /** One step on a printed message: exactly that message is consumed and its filtered form forwarded. */
  lemma StepOnMessage(cfg: Config, fmt: Option<nat>, m: ClientMsg, x: seq<byte>)
    requires WellFormed(m)
    ensures ClientStep(cfg, fmt, Wire(m) + x) ==
              Take(|Wire(m)|,
                   if FilterMsg(cfg, m).None? then [] else Wire(FilterMsg(cfg, m).value),
                   NextFormat(fmt, m),
                   m.ClientCutText? && cfg.blockCutText)
  {
    PrintedFrame(m, x);
    KindOfPrint(m);
    StepOnFrame(cfg, fmt, Wire(m), x);
    FilteredWire(cfg, m);
  }

  /** Forwarding a message's bytes and printing the filtered message are the same thing. */
  lemma FilteredWire(cfg: Config, m: ClientMsg)
    requires WellFormed(m)
    ensures Wire(m) != []
    ensures Forward(cfg, Wire(m)) == if FilterMsg(cfg, m).None? then [] else Wire(FilterMsg(cfg, m).value)
  {
    KindOfPrint(m);
    if m.SetEncodings? {
      ForcedPrint();
    }
  }

  lemma MessagePrintsAs(cfg: Config, fmt: Option<nat>, m: ClientMsg, x: seq<byte>)
    requires WellFormed(m)
    ensures PrintsAs(ClientParser(cfg), ClientCodec(cfg), fmt, m, x)
  {
    StepOnMessage(cfg, fmt, m, x);
  }

  lemma BufferParses(cfg: Config, fmt: Option<nat>, b: seq<byte>)
    requires ClientStep(cfg, fmt, b).Take?
    ensures Parses(ClientParser(cfg), ClientCodec(cfg), fmt, b)
  {
    var raw := b[..ClientFrame(b).total];
    FrameLocal(b);
    PrintOfDecode(raw);
    assert ClientCodec(cfg).valid(fmt, Decode(raw)) && ClientCodec(cfg).wire(Decode(raw)) == raw;
  }

  lemma ClientAgrees(cfg: Config)
    ensures Agrees(ClientParser(cfg), ClientCodec(cfg))
  {
    var p, c := ClientParser(cfg), ClientCodec(cfg);
    forall fmt: Option<nat>, m: ClientMsg, x: seq<byte> | c.valid(fmt, m) ensures PrintsAs(p, c, fmt, m, x) {
      MessagePrintsAs(cfg, fmt, m, x);
    }
    forall fmt: Option<nat>, b: seq<byte> | p(fmt, b).Take? ensures Parses(p, c, fmt, b) {
      BufferParses(cfg, fmt, b);
    }
    forall fmt: Option<nat>, m: ClientMsg | c.valid(fmt, m) ensures FilterKeepsState(c, fmt, m) {
      ForcedWellFormed();
    }
  }

  /** No cut text in a blocked direction, and only the forced encodings where they are restricted. */
  predicate MayForward(cfg: Config, m: ClientMsg) {
    (cfg.blockCutText ==> !m.ClientCutText?) && (cfg.restrict && m.SetEncodings? ==> m == FORCED)
  }

  /**
   Parser/printer agreement: a stream that is a list of messages followed by something that is not a whole
   message forwards exactly the filtered list, keeps exactly that something, and remembers a block iff a
   cut text was dropped.
   */
  lemma ClientRunOnMessages(cfg: Config, fmt: Option<nat>, msgs: seq<ClientMsg>, tail: seq<byte>)
    requires forall m <- msgs :: WellFormed(m)
    requires !ClientFrame(tail).Whole?
    ensures Progress(ClientParser(cfg))
    ensures var c := ClientCodec(cfg);
            Run(ClientParser(cfg), fmt, PrintAll(c, msgs) + tail) ==
              Outcome(PrintAll(c, FilterAll(c, msgs)), tail, EndState(c, fmt, msgs),
                      cfg.blockCutText && exists m <- msgs :: m.ClientCutText?, ClientFrame(tail).Bad?)
  {
    var c := ClientCodec(cfg);
    ClientParserSound(cfg);
    ClientAgrees(cfg);
    AllValid(cfg, fmt, msgs);
    StepFollowsFrame(cfg, EndState(c, fmt, msgs), tail);
    RunOnMessages(ClientParser(cfg), c, fmt, msgs, tail);
    BlockedIffCutText(cfg, msgs);
  }

  lemma StepFollowsFrame(cfg: Config, fmt: Option<nat>, b: seq<byte>)
    ensures ClientParser(cfg)(fmt, b).Take? <==> ClientFrame(b).Whole?
    ensures ClientParser(cfg)(fmt, b).Malformed? <==> ClientFrame(b).Bad?
  {
  }

  /** The filter remembers a block iff a cut text was dropped. */
  lemma BlockedIffCutText(cfg: Config, msgs: seq<ClientMsg>)
    ensures AnyBlocked(ClientCodec(cfg), msgs) <==> cfg.blockCutText && exists m <- msgs :: m.ClientCutText?
  {
    assert forall m <- msgs :: ClientCodec(cfg).blocked(m) <==> m.ClientCutText? && cfg.blockCutText;
  }

  lemma AllValid(cfg: Config, fmt: Option<nat>, msgs: seq<ClientMsg>)
    requires forall m <- msgs :: WellFormed(m)
    ensures ValidList(ClientCodec(cfg), fmt, msgs)
    decreases |msgs|
  {
    if msgs != [] {
      AllValid(cfg, NextFormat(fmt, msgs[0]), msgs[1..]);
    }
  }

  /**
   No leak on arbitrary bytes: whatever chunks reach a filter with whatever is buffered, everything it
   forwards is the filtered form of messages the stream began with, none of them cut text in a blocked
   direction; and a second filter with the same settings would forward it unchanged.
   */
  lemma ClientNoLeak(cfg: Config, fmt: Option<nat>, buf: seq<byte>, chunks: seq<seq<byte>>)
      returns (msgs: seq<ClientMsg>, fmt': Option<nat>)
    ensures Progress(ClientParser(cfg))
    ensures var c := ClientCodec(cfg);
            var out := Relay(ClientParser(cfg), fmt, buf, chunks).out;
            && ValidList(c, fmt, msgs) && PrintAll(c, msgs) <= buf + Flatten(chunks)
            && out == PrintAll(c, FilterAll(c, msgs))
            && (var r := Relay(ClientParser(cfg), fmt, buf, chunks);
                !r.failed ==> PrintAll(c, msgs) + r.rest == buf + Flatten(chunks) && r.state == EndState(c, fmt, msgs))
            && (forall m <- FilterAll(c, msgs) :: WellFormed(m) && MayForward(cfg, m))
            && Passes(ClientParser(cfg), fmt, out, fmt')
  {
    var c := ClientCodec(cfg);
    ClientParserSound(cfg);
    ClientAgrees(cfg);
    msgs := RelayForwards(ClientParser(cfg), c, fmt, buf, chunks);
    fmt' := RelayIdempotent(ClientParser(cfg), fmt, buf, chunks);
    FilteredMayForward(cfg, fmt, msgs);
  }

  lemma {:induction false} FilteredMayForward(cfg: Config, fmt: Option<nat>, msgs: seq<ClientMsg>)
    requires ValidList(ClientCodec(cfg), fmt, msgs)
    ensures forall m <- FilterAll(ClientCodec(cfg), msgs) :: WellFormed(m) && MayForward(cfg, m)
    decreases |msgs|
  {
    if msgs != [] {
      FilteredMayForward(cfg, NextFormat(fmt, msgs[0]), msgs[1..]);
      if msgs[0].SetEncodings? {
        ForcedWellFormed();
      }
    }
  }

  // -- In plain terms ----------------------------------------------------------------------------------

  /** What two settings leave of a list of messages. */
  function Permitted(block: bool, restrict: bool, msgs: seq<ClientMsg>): seq<ClientMsg> {
    if msgs == [] then [] else
    var later := Permitted(block, restrict, msgs[1..]);
    match msgs[0]
    case ClientCutText(_, _, _) => if block then later else [msgs[0]] + later
    case SetEncodings(_, _) => if restrict then [SetEncodings(0, [1, 0])] + later else [msgs[0]] + later
    case _ => [msgs[0]] + later
  }

  lemma {:induction false} FilterAllIsPermitted(cfg: Config, msgs: seq<ClientMsg>)
    ensures FilterAll(ClientCodec(cfg), msgs) == Permitted(cfg.blockCutText, cfg.restrict, msgs)
  {
    if msgs != [] {
      FilterAllIsPermitted(cfg, msgs[1..]);
    }
  }

  lemma {:induction false} PermittedAll(msgs: seq<ClientMsg>)
    ensures Permitted(false, false, msgs) == msgs
  {
    if msgs != [] {
      PermittedAll(msgs[1..]);
      assert msgs == [msgs[0]] + msgs[1..];
    }
  }

  /** The messages one after another as they are on the wire, independent of any setting. */
  function WireAll(msgs: seq<ClientMsg>): seq<byte> {
    if msgs == [] then [] else Wire(msgs[0]) + WireAll(msgs[1..])
  }

  lemma {:induction false} PrintAllIsWireAll(cfg: Config, msgs: seq<ClientMsg>)
    ensures PrintAll(ClientCodec(cfg), msgs) == WireAll(msgs)
  {
    if msgs != [] {
      PrintAllIsWireAll(cfg, msgs[1..]);
    }
  }

  lemma {:induction false} ValidAreWellFormed(cfg: Config, fmt: Option<nat>, msgs: seq<ClientMsg>)
    requires ValidList(ClientCodec(cfg), fmt, msgs)
    ensures forall m <- msgs :: WellFormed(m)
    decreases |msgs|
  {
    if msgs != [] {
      ValidAreWellFormed(cfg, NextFormat(fmt, msgs[0]), msgs[1..]);
      assert msgs == [msgs[0]] + msgs[1..];
    }
  }

  /** A pixel takes the whole bytes of the bits the client announced. */
  lemma {:induction false} PixelFormatOfLast(cfg: Config, fmt: Option<nat>, msgs: seq<ClientMsg>, m: ClientMsg)
    requires m.SetPixelFormat?
    ensures var bytes := EndState(ClientCodec(cfg), fmt, msgs + [m]);
            bytes.Some? && 8 * bytes.value <= m.bitsPerPixel as nat < 8 * bytes.value + 8
    decreases |msgs|
  {
    if msgs == [] {
      assert msgs + [m] == [m] && [m][1..] == [];
      assert EndState(ClientCodec(cfg), fmt, [m]) == EndState(ClientCodec(cfg), NextFormat(fmt, m), []);
    } else {
      assert (msgs + [m])[1..] == msgs[1..] + [m];
      PixelFormatOfLast(cfg, NextFormat(fmt, msgs[0]), msgs[1..], m);
    }
  }
}
