/** Which clipboard directions a session may use, from group policies to filter settings. */
module Clipboard {
  import opened Wrappers

  datatype ClipboardMode = NONE | LOCAL_TO_REMOTE | REMOTE_TO_LOCAL | BIDIRECTIONAL_TEXT

  const DEFAULT_CLIPBOARD_MODE: ClipboardMode := BIDIRECTIONAL_TEXT

  predicate AllowsLocalToRemote(m: ClipboardMode) {
    m in {LOCAL_TO_REMOTE, BIDIRECTIONAL_TEXT}
  }

  predicate AllowsRemoteToLocal(m: ClipboardMode) {
    m in {REMOTE_TO_LOCAL, BIDIRECTIONAL_TEXT}
  }

  /** The JSON content of a policy version; `None` stands for a missing value or one of another type. */
  datatype Content = NotAnObject | Object(clipboardMode: Option<string>, screenWidth: Option<int>, screenHeight: Option<int>)

  function ParseMode(c: Content): Option<ClipboardMode> {
    match c
    case Object(Some("NONE"), _, _) => Some(NONE)
    case Object(Some("LOCAL_TO_REMOTE"), _, _) => Some(LOCAL_TO_REMOTE)
    case Object(Some("REMOTE_TO_LOCAL"), _, _) => Some(REMOTE_TO_LOCAL)
    case Object(Some("BIDIRECTIONAL_TEXT"), _, _) => Some(BIDIRECTIONAL_TEXT)
    case _ => None
  }

  /** A content sets a mode iff it is an object whose text is the mode's name. */
  lemma ParseModeExactly(c: Content, mode: ClipboardMode)
    ensures ParseMode(c) == Some(mode) <==>
              && c.Object?
              && c.clipboardMode == Some(match mode
                                         case NONE => "NONE"
                                         case LOCAL_TO_REMOTE => "LOCAL_TO_REMOTE"
                                         case REMOTE_TO_LOCAL => "REMOTE_TO_LOCAL"
                                         case BIDIRECTIONAL_TEXT => "BIDIRECTIONAL_TEXT")
  {
    assert "NONE" != "LOCAL_TO_REMOTE" && "NONE" != "REMOTE_TO_LOCAL" && "NONE" != "BIDIRECTIONAL_TEXT";
    assert "LOCAL_TO_REMOTE"[0] != "REMOTE_TO_LOCAL"[0] && "LOCAL_TO_REMOTE"[0] != "BIDIRECTIONAL_TEXT"[0];
    assert "REMOTE_TO_LOCAL"[0] != "BIDIRECTIONAL_TEXT"[0];
  }

  /** Which contents object to which direction, in the texts of the modes. */
  lemma ObjectsExactly(c: Content)
    ensures ParseMode(c).Some? && !AllowsLocalToRemote(ParseMode(c).value) <==>
              c.Object? && (c.clipboardMode == Some("NONE") || c.clipboardMode == Some("REMOTE_TO_LOCAL"))
    ensures ParseMode(c).Some? && !AllowsRemoteToLocal(ParseMode(c).value) <==>
              c.Object? && (c.clipboardMode == Some("NONE") || c.clipboardMode == Some("LOCAL_TO_REMOTE"))
  {
    forall mode ensures ParseMode(c) == Some(mode) ==> c.Object? {
      ParseModeExactly(c, mode);
    }
    ParseModeExactly(c, NONE);
    ParseModeExactly(c, LOCAL_TO_REMOTE);
    ParseModeExactly(c, REMOTE_TO_LOCAL);
    ParseModeExactly(c, BIDIRECTIONAL_TEXT);
  }

  /** The mode allows a direction iff every content that sets a mode allows it. */
  ghost predicate Resolves(contents: seq<Content>, mode: ClipboardMode) {
    && (AllowsLocalToRemote(mode) <==> forall c <- contents :: ParseMode(c).Some? ==> AllowsLocalToRemote(ParseMode(c).value))
    && (AllowsRemoteToLocal(mode) <==> forall c <- contents :: ParseMode(c).Some? ==> AllowsRemoteToLocal(ParseMode(c).value))
  }

  /** The resolved mode depends neither on the order nor on the repetition of the contents. */
  lemma ModeIgnoresOrder(a: seq<Content>, b: seq<Content>, m: ClipboardMode, n: ClipboardMode)
    requires (forall c :: c in a <==> c in b) && Resolves(a, m) && Resolves(b, n)
    ensures m == n
  {
    assert AllowsLocalToRemote(m) <==> AllowsLocalToRemote(n);
    assert AllowsRemoteToLocal(m) <==> AllowsRemoteToLocal(n);
  }

  /** `resolve_clipboard_policy` over the contents its query returned. */
  method ResolveClipboardPolicy(contents: seq<Content>) returns (mode: ClipboardMode)
    ensures Resolves(contents, mode)
  {
    var modes: seq<ClipboardMode> := [];
    for i := 0 to |contents|
      invariant forall c <- contents[..i] :: ParseMode(c).Some? ==> ParseMode(c).value in modes
      invariant forall m <- modes :: exists c <- contents[..i] :: ParseMode(c) == Some(m)
    {
      assert contents[..i + 1] == contents[..i] + [contents[i]];
      var parsed := ParseMode(contents[i]);
      if parsed.Some? {
        modes := modes + [parsed.value];
      }
    }
    assert contents[..|contents|] == contents;
    if modes == [] {
      return DEFAULT_CLIPBOARD_MODE;
    }
    var allowLocalToRemote := forall m <- modes :: AllowsLocalToRemote(m);
    var allowRemoteToLocal := forall m <- modes :: AllowsRemoteToLocal(m);
    if allowLocalToRemote && allowRemoteToLocal {
      return BIDIRECTIONAL_TEXT;
    }
    if allowLocalToRemote {
      return LOCAL_TO_REMOTE;
    }
    if allowRemoteToLocal {
      return REMOTE_TO_LOCAL;
    }
    return NONE;
  }

  datatype Enforcement = Enforcement(blockClientToServer: bool, blockServerToClient: bool) {
    predicate RestrictServerEncodings() {
      blockServerToClient
    }
  }

  function EnforcementForMode(mode: ClipboardMode): (e: Enforcement)
    ensures e.blockClientToServer <==> !AllowsLocalToRemote(mode)
    ensures e.blockServerToClient <==> !AllowsRemoteToLocal(mode)
  {
    Enforcement(mode !in {LOCAL_TO_REMOTE, BIDIRECTIONAL_TEXT}, mode !in {REMOTE_TO_LOCAL, BIDIRECTIONAL_TEXT})
  }
}
