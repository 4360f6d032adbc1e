/** Source-hostname matching for SOURCE rules: a string test that is exactly whole-label matching. */
module SourceMatching {
  import opened Text

  /** `urlHost` stands for the URL parser, used only on values that look like a URL. */
  function NormalizeHostname(urlOrHost: string, urlHost: string -> string): string {
    var candidate := Strip(urlOrHost);
    RStrip(Lower(if LooksLikeUrl(candidate) then urlHost(candidate) else candidate), IsDot)
  }

  predicate LooksLikeUrl(s: string) {
    |s| >= 3 && (s[..3] == "://" || LooksLikeUrl(s[1..]))
  }

  function NormalizePattern(pattern: string): string {
    RStrip(Lower(Strip(pattern)), IsDot)
  }

  predicate MatchesSourcePattern(hostname: string, pattern: string, urlHost: string -> string) {
    var host := NormalizeHostname(hostname, urlHost);
    var pat := NormalizePattern(pattern);
    if pat == "" || host == "" then false
    else if StartsWith(pat, "*.") then host == pat[2..] || EndsWith(host, "." + pat[2..])
    else host == pat
  }

  /** The DNS labels of a name. */
  function Labels(name: string): seq<string> {
    Split(name, '.')
  }

  predicate IsLabelSuffix(base: seq<string>, labels: seq<string>) {
    |base| <= |labels| && labels[|labels| - |base|..] == base
  }

  /** The string test for `*.base` succeeds exactly when the labels of the base end the labels of the host. */
  lemma WildcardIsLabelSuffix(host: string, base: string)
    ensures (host == base || EndsWith(host, "." + base)) <==> IsLabelSuffix(Labels(base), Labels(host))
  {
    if EndsWith(host, "." + base) {
      var front := host[..|host| - |base| - 1];
      assert host == front + "." + base;
      SplitAtSeparator(front, base, '.');
    }
    if IsLabelSuffix(Labels(base), Labels(host)) {
      var front := Labels(host)[..|Labels(host)| - |Labels(base)|];
      assert Labels(host) == front + Labels(base);
      JoinOfSplit(host, '.');
      JoinOfSplit(base, '.');
      if front != [] {
        JoinAppend(front, Labels(base), '.');
        assert host == Join(front, '.') + "." + base;
        assert host[|host| - |base| - 1..] == "." + base;
      } else {
        assert front + Labels(base) == Labels(base);
      }
    }
  }

  lemma StarLabel()
    ensures Labels("*") == ["*"]
  {
    var star := "*";
    assert star[1..] == "" && Split("", '.') == [""];
    assert [star[0]] + "" == star;
  }

  /** What a SOURCE rule matches, in labels: the name itself, or for `*.base` also every name under it. */
  lemma MatchesWholeLabels(hostname: string, pattern: string, urlHost: string -> string)
    ensures var host := NormalizeHostname(hostname, urlHost);
            var pat := NormalizePattern(pattern);
            MatchesSourcePattern(hostname, pattern, urlHost) <==>
              && host != "" && pat != ""
              && (if Labels(pat)[0] == "*" && |Labels(pat)| > 1 then IsLabelSuffix(Labels(pat)[1..], Labels(host))
                  else Labels(host) == Labels(pat))
  {
    var host := NormalizeHostname(hostname, urlHost);
    var pat := NormalizePattern(pattern);
    JoinOfSplit(pat, '.');
    assert Labels(pat)[0] == "*" && |Labels(pat)| > 1 ==> pat == "*" + ['.'] + Join(Labels(pat)[1..], '.');
    if StartsWith(pat, "*.") {
      assert pat == "*" + "." + pat[2..];
      SplitAtSeparator("*", pat[2..], '.');
      StarLabel();
      assert Labels(pat)[1..] == Labels(pat[2..]);
      WildcardIsLabelSuffix(host, pat[2..]);
    } else {
      if Labels(host) == Labels(pat) {
        SplitInjective(host, pat, '.');
      }
    }
  }

  /**
   The normal form of a bare host name: its letters folded, without the blanks around it and without the dots
   at its end.
   */
  lemma NormalForm(hostname: string, urlHost: string -> string) returns (from: nat, to: nat, dots: nat)
    requires !LooksLikeUrl(Strip(hostname))
    ensures from <= to <= |hostname| && dots <= to - from
    ensures NormalizeHostname(hostname, urlHost) == Lower(hostname[from..to - dots])
    ensures forall i | 0 <= i < |hostname| && (i < from || to <= i) :: IsSpace(hostname[i])
    ensures forall i | to - dots <= i < to :: hostname[i] == '.'
    ensures to - dots > from ==> hostname[to - dots - 1] != '.'
  {
    from, to := StripExactly(hostname);
    var name := hostname[from..to];
    var n := RStripExactly(Lower(name), IsDot);
    dots := to - from - n;
    assert Lower(name)[..n] == Lower(name[..n]) && name[..n] == hostname[from..to - dots];
    forall i | to - dots <= i < to ensures hostname[i] == '.' {
      assert IsDot(Lower(name)[i - from]);
      assert hostname[i] == name[i - from];
    }
    if n > 0 {
      assert !IsDot(Lower(name)[n - 1]) && name[n - 1] == hostname[to - dots - 1];
    }
  }
}
