/** MIME and extension matching for MIME policy rules. */
module MimeMatching {
  import opened Text
  import opened Wrappers

  predicate IsExtensionPattern(pattern: string) {
    StartsWith(Strip(pattern), ".")
  }

  function Fold(s: string): string {
    Lower(Strip(s))
  }

  predicate MatchesMimePattern(value: Option<string>, pattern: string) {
    value.Some? &&
    var v := Fold(value.value);
    var p := Fold(pattern);
    if StartsWith(p, ".") then v == p || LStrip(v, IsDot) == LStrip(p, IsDot)
    else if EndsWith(p, "/*") then StartsWith(v, p[..|p| - 1])
    else v == p
  }

  lemma {:induction false} LStripKeeps(s: string, c: char, drop: char -> bool)
    requires !drop(c)
    ensures c in LStrip(s, drop) <==> c in s
  {
    if s != "" && drop(s[0]) {
      LStripKeeps(s[1..], c, drop);
      assert s == [s[0]] + s[1..];
    }
  }

  lemma {:induction false} RStripKeeps(s: string, c: char, drop: char -> bool)
    requires !drop(c)
    ensures c in RStrip(s, drop) <==> c in s
  {
    if s != "" && drop(s[|s| - 1]) {
      RStripKeeps(s[..|s| - 1], c, drop);
      assert s == s[..|s| - 1] + [s[|s| - 1]];
    }
  }

  lemma LowerKeepsSlash(s: string)
    ensures '/' in Lower(s) <==> '/' in s
  {
    if '/' in s {
      var i :| 0 <= i < |s| && s[i] == '/';
      assert Lower(s)[i] == '/';
    }
    if '/' in Lower(s) {
      var i :| 0 <= i < |s| && Lower(s)[i] == '/';
      assert s[i] == '/';
    }
  }

  /** Folding and stripping neither add nor remove a slash. */
  lemma FoldKeepsSlash(s: string)
    ensures '/' in Fold(s) <==> '/' in s
  {
    LStripKeeps(s, '/', IsSpace);
    RStripKeeps(LStrip(s, IsSpace), '/', IsSpace);
    LowerKeepsSlash(Strip(s));
  }

  lemma LowerKeepsDot(s: string)
    ensures StartsWith(Lower(s), ".") <==> StartsWith(s, ".")
  {
    if s != "" {
      assert Lower(s)[0] == LowerChar(s[0]);
      assert StartsWith(s, ".") <==> s[0] == '.';
      assert StartsWith(Lower(s), ".") <==> Lower(s)[0] == '.';
    }
  }

  /** The name an extension pattern or value stands for, without its dots. */
  function BareName(s: string): string {
    LStrip(Fold(s), IsDot)
  }

  lemma BareNameKeepsSlash(s: string)
    ensures '/' in BareName(s) <==> '/' in s
  {
    FoldKeepsSlash(s);
    LStripKeeps(Fold(s), '/', IsDot);
  }

  /** What an extension pattern matches, for all values: those with the same name but for case, blanks and dots. */
  lemma ExtensionMatchesExactly(value: string, pattern: string)
    requires IsExtensionPattern(pattern)
    ensures MatchesMimePattern(Some(value), pattern) <==> BareName(value) == BareName(pattern)
  {
    LowerKeepsDot(Strip(pattern));
  }

  /** An extension pattern matches some value with a slash, as MIME types have one, iff it has one itself. */
  lemma ExtensionMatchesMimeTypeIff(pattern: string)
    requires IsExtensionPattern(pattern)
    ensures (exists value :: '/' in value && MatchesMimePattern(Some(value), pattern)) <==> '/' in pattern
  {
    forall value | '/' in value && MatchesMimePattern(Some(value), pattern) ensures '/' in pattern {
      ExtensionMatchesExactly(value, pattern);
      BareNameKeepsSlash(value);
      BareNameKeepsSlash(pattern);
    }
    if '/' in pattern {
      ExtensionMatchesExactly(pattern, pattern);
    }
  }

  /** So the promise that an extension pattern never matches a MIME type fails for one like this. */
  lemma DottedMimeTypeMatches()
    ensures IsExtensionPattern(".a/b") && MatchesMimePattern(Some("a/b"), ".a/b")
  {
    var p, v := ".a/b", "a/b";
    assert LStrip(p, IsSpace) == p && LStrip(v, IsSpace) == v && RStrip(p, IsSpace) == p && RStrip(v, IsSpace) == v;
    assert Lower(p) == p && Lower(v) == v;
    assert p[1..] == v && LStrip(v, IsDot) == v;
    ExtensionMatchesExactly(v, p);
  }

  /** A wildcard matches exactly the values whose slash-separated parts go on after those of the pattern. */
  lemma WildcardMatchesParts(value: string, pattern: string)
    requires !IsExtensionPattern(pattern) && EndsWith(Fold(pattern), "/*")
    ensures MatchesMimePattern(Some(value), pattern) <==>
              var kind := Split(Fold(pattern)[..|Fold(pattern)| - 2], '/');
              var parts := Split(Fold(value), '/');
              |kind| < |parts| && kind == parts[..|kind|]
  {
    var v, p := Fold(value), Fold(pattern);
    var prefix := p[..|p| - 2];
    var kind, parts := Split(prefix, '/'), Split(v, '/');
    LowerKeepsDot(Strip(pattern));
    assert p[..|p| - 1] == prefix + "/";
    if StartsWith(v, prefix + "/") {
      assert v == prefix + ['/'] + v[|prefix| + 1..];
      SplitAtSeparator(prefix, v[|prefix| + 1..], '/');
    }
    if |kind| < |parts| && kind == parts[..|kind|] {
      var later := parts[|kind|..];
      assert parts == kind + later;
      JoinAppend(kind, later, '/');
      JoinOfSplit(v, '/');
      JoinOfSplit(prefix, '/');
      assert v == prefix + ['/'] + Join(later, '/');
    }
  }

  /** Any other pattern matches exactly the values equal to it but for case and surrounding blanks. */
  lemma OtherPatternsMatchEqual(value: string, pattern: string)
    requires !IsExtensionPattern(pattern) && !EndsWith(Fold(pattern), "/*")
    ensures MatchesMimePattern(Some(value), pattern) <==> Fold(value) == Fold(pattern)
  {
    LowerKeepsDot(Strip(pattern));
  }

  lemma NothingMatchesAbsent(pattern: string)
    ensures !MatchesMimePattern(None, pattern)
  {
  }

  /** An extension pattern is one whose first character that is not blank is a dot. */
  lemma ExtensionPatternExactly(pattern: string) returns (from: nat)
    ensures from <= |pattern| && (forall i | 0 <= i < from :: IsSpace(pattern[i])) && (from < |pattern| ==> !IsSpace(pattern[from]))
    ensures IsExtensionPattern(pattern) <==> from < |pattern| && pattern[from] == '.'
  {
    from := LStripExactly(pattern, IsSpace);
    var rest := pattern[from..];
    var n := RStripExactly(rest, IsSpace);
    if from < |pattern| {
      assert rest[0] == pattern[from];
      assert n > 0;
      assert Strip(pattern) == rest[..n] && rest[..n][0] == pattern[from];
      assert IsExtensionPattern(pattern) <==> Strip(pattern)[0] == '.';
    }
  }
}
