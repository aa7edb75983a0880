/**
 * The string operations the pipeline builds its paths and SQL from:
 * pieces of `str.split`, POSIX `os.path.join`, and `str.replace` (every
 * non-overlapping occurrence, scanned left to right), together with what
 * replacing bracketed placeholder tokens does and does not guarantee.
 */
module Text {

  /** `s.split(sep)[-1]`: the longest suffix of `s` that holds no `sep` (see `LastSegmentShape`). */
  function LastSegment(s: string, sep: char): string
    decreases |s|
  {
    if s == [] || s[|s| - 1] == sep then [] else LastSegment(s[..|s| - 1], sep) + [s[|s| - 1]]
  }

  /** The last segment is a suffix free of `sep`, and what precedes it, if anything, is `sep`. */
  lemma {:induction false} LastSegmentShape(s: string, sep: char)
    ensures var r := LastSegment(s, sep);
      && |r| <= |s| && r == s[|s| - |r|..]
      && sep !in r
      && (|r| < |s| ==> s[|s| - |r| - 1] == sep)
    decreases |s|
  {
    if s != [] && s[|s| - 1] != sep {
      var init, last := s[..|s| - 1], s[|s| - 1];
      LastSegmentShape(init, sep);
      var r0 := LastSegment(init, sep);
      assert s == init + [last];
      DropSnoc(init, last, |init| - |r0|);
    }
  }

  lemma DropSnoc(a: string, c: char, k: nat)
    requires k <= |a|
    ensures (a + [c])[k..] == a[k..] + [c]
  {
  }

  /** `s.split(sep)[0]`: the longest prefix of `s` that holds no `sep` (see `FirstSegmentShape`). */
  function FirstSegment(s: string, sep: char): string
    decreases |s|
  {
    if s == [] || s[0] == sep then [] else [s[0]] + FirstSegment(s[1..], sep)
  }

  /** The first segment is a prefix free of `sep`, and what follows it, if anything, is `sep`. */
  lemma {:induction false} FirstSegmentShape(s: string, sep: char)
    ensures var r := FirstSegment(s, sep);
      && |r| <= |s| && r == s[..|r|]
      && sep !in r
      && (|r| < |s| ==> s[|r|] == sep)
    decreases |s|
  {
    if s != [] && s[0] != sep {
      FirstSegmentShape(s[1..], sep);
    }
  }

  /** The last segment of `p + sep + w` is `w` when `w` holds no separator. */
  lemma {:induction false} LastSegmentOf(p: string, sep: char, w: string)
    requires sep !in w
    ensures LastSegment(p + [sep] + w, sep) == w
    decreases |w|
  {
    var s := p + [sep] + w;
    if w == [] {
      assert s[|s| - 1] == sep;
    } else {
      var w' := w[..|w| - 1];
      assert w[|w| - 1] in w;
      assert s[..|s| - 1] == p + [sep] + w';
      LastSegmentOf(p, sep, w');
      assert w == w' + [w[|w| - 1]];
    }
  }

  /** A text without the separator is its own last segment. */
  lemma {:induction false} LastSegmentWhole(w: string, sep: char)
    requires sep !in w
    ensures LastSegment(w, sep) == w
    decreases |w|
  {
    if w != [] {
      var w' := w[..|w| - 1];
      assert w[|w| - 1] in w;
      LastSegmentWhole(w', sep);
      assert w == w' + [w[|w| - 1]];
    }
  }

  /** The first segment of `w + sep + rest` is `w` when `w` holds no separator. */
  lemma {:induction false} FirstSegmentOf(w: string, sep: char, rest: string)
    requires sep !in w
    ensures FirstSegment(w + [sep] + rest, sep) == w
    decreases |w|
  {
    var s := w + [sep] + rest;
    if w == [] {
      assert s[0] == sep;
    } else {
      assert w[0] in w;
      assert s[1..] == w[1..] + [sep] + rest;
      FirstSegmentOf(w[1..], sep, rest);
      assert w == [w[0]] + w[1..];
    }
  }

  /** A text without the separator is its own first segment. */
  lemma {:induction false} FirstSegmentWhole(w: string, sep: char)
    requires sep !in w
    ensures FirstSegment(w, sep) == w
    decreases |w|
  {
    if w != [] {
      assert w[0] in w;
      FirstSegmentWhole(w[1..], sep);
      assert w == [w[0]] + w[1..];
    }
  }

  /**
   * POSIX `os.path.join(a, b)` for two components: an absolute `b` replaces `a`;
   * otherwise a `/` is inserted unless `a` is empty or already ends in one.
   */
  function Join(a: string, b: string): string {
    if |b| > 0 && b[0] == '/' then b
    else if a == [] || a[|a| - 1] == '/' then a + b
    else a + "/" + b
  }

  /**
   * A join ends with `b`; an absolute `b` is the whole result; otherwise the
   * result starts with `a`, and with a non-empty `a` a `/` comes right before `b`.
   */
  lemma JoinShape(a: string, b: string)
    ensures var r := Join(a, b);
      && |b| <= |r| && r[|r| - |b|..] == b
      && (|b| > 0 && b[0] == '/' ==> r == b)
      && ((|b| == 0 || b[0] != '/') ==> |a| <= |r| && r[..|a|] == a)
      && ((|b| == 0 || b[0] != '/') && a != [] ==> |r| > |b| && r[|r| - |b| - 1] == '/')
  {
  }

  /** Joining a plain directory and a relative name puts exactly one `/` between them. */
  lemma JoinPlain(a: string, b: string)
    requires a != [] && a[|a| - 1] != '/' && (b == [] || b[0] != '/')
    ensures Join(a, b) == a + "/" + b
  {
  }

  /** The last `/` segment of a joined path is the name that was joined on. */
  lemma JoinLastSegment(a: string, b: string)
    requires '/' !in b
    ensures LastSegment(Join(a, b), '/') == b
  {
    JoinShape(a, b);
    var r := Join(a, b);
    if a == [] {
      assert r == b;
      LastSegmentWhole(b, '/');
    } else {
      assert r == r[..|r| - |b| - 1] + ['/'] + b;
      LastSegmentOf(r[..|r| - |b| - 1], '/', b);
    }
  }

  predicate IsPrefix(p: string, s: string) {
    |p| <= |s| && s[..|p|] == p
  }

  /** `t in s` for strings: `t` starts at some position of `s`. */
  predicate Occurs(s: string, t: string)
    decreases |s|
  {
    IsPrefix(t, s) || (s != [] && Occurs(s[1..], t))
  }

  /** `Occurs` agrees with occurrence at an explicit position. */
  lemma {:induction false} OccursAt(s: string, t: string)
    ensures Occurs(s, t) <==> exists i :: 0 <= i <= |s| && IsPrefix(t, s[i..])
    decreases |s|
  {
    assert s[0..] == s;
    if s != [] {
      OccursAt(s[1..], t);
      if Occurs(s, t) && !IsPrefix(t, s) {
        var i :| 0 <= i <= |s[1..]| && IsPrefix(t, s[1..][i..]);
        assert s[1..][i..] == s[i + 1..];
      }
      if exists i :: 0 <= i <= |s| && IsPrefix(t, s[i..]) {
        var i :| 0 <= i <= |s| && IsPrefix(t, s[i..]);
        if i > 0 {
          assert s[1..][i - 1..] == s[i..];
        }
      }
    }
  }

  /**
   * `s.replace(pat, rep)`: every occurrence of `pat` found scanning left to
   * right, resuming after each match, is replaced by `rep`. A match can only
   * begin where the first character of `pat` stands.
   */
  function ReplaceAll(s: string, pat: string, rep: string): string
    decreases |s|
  {
    if pat == [] then Interleave(s, rep)
    else if s == [] then []
    else if s[0] == pat[0] && IsPrefix(pat, s) then rep + ReplaceAll(s[|pat|..], pat, rep)
    else [s[0]] + ReplaceAll(s[1..], pat, rep)
  }

  /** `s.replace("", rep)`: `rep` before every character and at the end. */
  function Interleave(s: string, rep: string): string
    decreases |s|
  {
    if s == [] then rep else rep + [s[0]] + Interleave(s[1..], rep)
  }

  /** The replacements run one after another, in the order given. */
  function Substitute(s: string, pairs: seq<(string, string)>): string
    decreases |pairs|
  {
    if pairs == [] then s else Substitute(ReplaceAll(s, pairs[0].0, pairs[0].1), pairs[1..])
  }

  function Placeholders(pairs: seq<(string, string)>): (ts: set<string>)
    ensures forall i :: 0 <= i < |pairs| ==> pairs[i].0 in ts
    decreases |pairs|
  {
    if pairs == [] then {} else {pairs[0].0} + Placeholders(pairs[1..])
  }

  lemma FirstCharMismatch(pat: string, s: string)
    requires pat != [] && s != [] && s[0] != pat[0]
    ensures !IsPrefix(pat, s)
  {
    if |pat| <= |s| {
      assert s[..|pat|][0] == s[0];
    }
  }

  /** Where the pattern does not start, `replace` keeps the first character and moves on. */
  lemma ReplaceNoMatch(s: string, pat: string, rep: string)
    requires pat != [] && s != [] && !IsPrefix(pat, s)
    ensures ReplaceAll(s, pat, rep) == [s[0]] + ReplaceAll(s[1..], pat, rep)
  {
  }

  /** Where the pattern starts, `replace` emits `rep` and resumes after the match. */
  lemma ReplaceMatch(s: string, pat: string, rep: string)
    requires pat != [] && IsPrefix(pat, s)
    ensures ReplaceAll(s, pat, rep) == rep + ReplaceAll(s[|pat|..], pat, rep)
  {
    assert s[..|pat|][0] == s[0];
  }

  /** A character that cannot start the pattern is copied. */
  lemma ReplaceCons(c: char, x: string, pat: string, rep: string)
    requires pat != [] && c != pat[0]
    ensures ReplaceAll([c] + x, pat, rep) == [c] + ReplaceAll(x, pat, rep)
  {
    assert ([c] + x)[1..] == x;
  }

  lemma OccursCons(c: char, x: string, pat: string)
    requires pat != [] && c != pat[0]
    ensures Occurs([c] + x, pat) == Occurs(x, pat)
  {
    FirstCharMismatch(pat, [c] + x);
    assert ([c] + x)[1..] == x;
  }

  // ----- Bracketed placeholder tokens -----

  /** A placeholder token such as `[src_table]`: `[`, text free of brackets, `]`. */
  predicate Bracketed(t: string) {
    |t| >= 2 && t[0] == '[' && t[|t| - 1] == ']' && '[' !in t[1..] && ']' !in t[..|t| - 1]
  }

  /** The placeholder for `name` in a template: `[name]`. */
  function Token(name: string): string {
    "[" + name + "]"
  }

  /** A name free of brackets, put between brackets, is a placeholder token. */
  lemma BracketedName(n: string)
    requires '[' !in n && ']' !in n
    ensures Bracketed(Token(n))
  {
    var t := Token(n);
    assert t[1..] == n + "]" && t[..|t| - 1] == "[" + n;
  }

  /** Every `[` of `s` opens one of the bracketed tokens `toks`. */
  ghost predicate HolesAmong(s: string, toks: set<string>)
    decreases |s|
  {
    if s == [] then true
    else if s[0] != '[' then HolesAmong(s[1..], toks)
    else exists t :: t in toks && Bracketed(t) && IsPrefix(t, s) && HolesAmong(s[|t|..], toks)
  }

  /** At most one bracketed token starts a given text. */
  lemma TokenUnique(t: string, u: string, s: string)
    requires Bracketed(t) && Bracketed(u) && IsPrefix(t, s) && IsPrefix(u, s)
    ensures t == u
  {
    forall i | 0 <= i < |t| && i < |u|
      ensures t[i] == u[i]
    {
      assert t[i] == s[..|t|][i] && u[i] == s[..|u|][i];
    }
    forall i | 0 <= i < |u| - 1
      ensures u[i] != ']'
    {
      assert u[..|u| - 1][i] == u[i];
    }
    forall i | 0 <= i < |t| - 1
      ensures t[i] != ']'
    {
      assert t[..|t| - 1][i] == t[i];
    }
    assert |t| == |u|;
  }

  lemma HolesCons(c: char, x: string, toks: set<string>)
    requires c != '[' && HolesAmong(x, toks)
    ensures HolesAmong([c] + x, toks)
  {
    assert ([c] + x)[1..] == x;
  }

  /** Text without `[` in front keeps every `[` opening a token. */
  lemma {:induction false} PlainPrefix(u: string, w: string, toks: set<string>)
    requires '[' !in u && HolesAmong(w, toks)
    ensures HolesAmong(u + w, toks)
    decreases |u|
  {
    if u == [] {
      assert u + w == w;
    } else {
      var c, u' := u[0], u[1..];
      assert c in u;
      PlainPrefix(u', w, toks);
      HolesCons(c, u' + w, toks);
      assert u + w == [c] + (u' + w);
    }
  }

  /** A bracketed token in front keeps every `[` opening a token. */
  lemma TokenPrefix(t: string, w: string, toks: set<string>)
    requires t in toks && Bracketed(t) && HolesAmong(w, toks)
    ensures HolesAmong(t + w, toks)
  {
    var s := t + w;
    assert s[..|t|] == t && s[|t|..] == w;
    assert IsPrefix(t, s);
  }

  /** A pattern opening with `[` is never found inside text without `[`. */
  lemma {:induction false} ReplaceSkipsPlain(u: string, w: string, pat: string, rep: string)
    requires '[' !in u && pat != [] && pat[0] == '['
    ensures ReplaceAll(u + w, pat, rep) == u + ReplaceAll(w, pat, rep)
    decreases |u|
  {
    if u == [] {
      assert u + w == w;
    } else {
      var c, u' := u[0], u[1..];
      assert c in u;
      var tail := ReplaceAll(w, pat, rep);
      calc {
        ReplaceAll(u + w, pat, rep);
        { assert u + w == [c] + (u' + w); }
        ReplaceAll([c] + (u' + w), pat, rep);
        { ReplaceCons(c, u' + w, pat, rep); }
        [c] + ReplaceAll(u' + w, pat, rep);
        { ReplaceSkipsPlain(u', w, pat, rep); }
        [c] + (u' + tail);
        { assert u == [c] + u'; }
        u + tail;
      }
    }
  }

  lemma {:induction false} OccursSkipsPlain(u: string, w: string, pat: string)
    requires '[' !in u && pat != [] && pat[0] == '['
    ensures Occurs(u + w, pat) == Occurs(w, pat)
    decreases |u|
  {
    if u == [] {
      assert u + w == w;
    } else {
      var c, u' := u[0], u[1..];
      assert c in u;
      calc {
        Occurs(u + w, pat);
        { assert u + w == [c] + (u' + w); }
        Occurs([c] + (u' + w), pat);
        { OccursCons(c, u' + w, pat); }
        Occurs(u' + w, pat);
        { OccursSkipsPlain(u', w, pat); }
        Occurs(w, pat);
      }
    }
  }

  lemma OtherTokenNoMatch(t: string, rest: string, pat: string)
    requires Bracketed(t) && Bracketed(pat) && t != pat
    ensures !IsPrefix(pat, t + rest)
  {
    var s := t + rest;
    assert s[..|t|] == t;
    if IsPrefix(pat, s) {
      TokenUnique(t, pat, s);
    }
  }

  /** Replacing one token passes over a different token unchanged. */
  lemma ReplaceOtherToken(t: string, rest: string, pat: string, rep: string)
    requires Bracketed(t) && Bracketed(pat) && t != pat
    ensures ReplaceAll(t + rest, pat, rep) == t + ReplaceAll(rest, pat, rep)
  {
    var t' := t[1..];
    var tail := ReplaceAll(rest, pat, rep);
    OtherTokenNoMatch(t, rest, pat);
    calc {
      ReplaceAll(t + rest, pat, rep);
      { ReplaceNoMatch(t + rest, pat, rep);
        assert (t + rest)[0] == t[0] && (t + rest)[1..] == t' + rest; }
      [t[0]] + ReplaceAll(t' + rest, pat, rep);
      { ReplaceSkipsPlain(t', rest, pat, rep); }
      [t[0]] + (t' + tail);
      { assert t == [t[0]] + t'; }
      t + tail;
    }
  }

  /** A token other than `pat` in front does not make `pat` occur. */
  lemma OccursOtherToken(t: string, rest: string, pat: string)
    requires Bracketed(t) && Bracketed(pat) && t != pat
    ensures Occurs(t + rest, pat) == Occurs(rest, pat)
  {
    var t' := t[1..];
    OtherTokenNoMatch(t, rest, pat);
    calc {
      Occurs(t + rest, pat);
      { assert (t + rest)[1..] == t' + rest; }
      Occurs(t' + rest, pat);
      { OccursSkipsPlain(t', rest, pat); }
      Occurs(rest, pat);
    }
  }

  /**
   * Replacing a bracketed token by a text free of `[` uses up that token:
   * every `[` of the result opens one of the other tokens.
   */
  lemma {:induction false} ReplaceUsesToken(s: string, toks: set<string>, pat: string, rep: string)
    requires Bracketed(pat) && '[' !in rep && HolesAmong(s, toks)
    ensures HolesAmong(ReplaceAll(s, pat, rep), toks - {pat})
    decreases |s|
  {
    if s == [] {
    } else if s[0] != '[' {
      ReplaceUsesToken(s[1..], toks, pat, rep);
      assert s == [s[0]] + s[1..];
      ReplaceCons(s[0], s[1..], pat, rep);
      HolesCons(s[0], ReplaceAll(s[1..], pat, rep), toks - {pat});
    } else {
      var t :| t in toks && Bracketed(t) && IsPrefix(t, s) && HolesAmong(s[|t|..], toks);
      var rest := s[|t|..];
      ReplaceUsesToken(rest, toks, pat, rep);
      if t == pat {
        ReplaceMatch(s, pat, rep);
        PlainPrefix(rep, ReplaceAll(rest, pat, rep), toks - {pat});
      } else {
        assert s == t + rest;
        ReplaceOtherToken(t, rest, pat, rep);
        TokenPrefix(t, ReplaceAll(rest, pat, rep), toks - {pat});
      }
    }
  }

  /** A bracketed token outside `toks` does not occur where every `[` opens one of `toks`. */
  lemma {:induction false} AbsentToken(s: string, toks: set<string>, pat: string)
    requires Bracketed(pat) && pat !in toks && HolesAmong(s, toks)
    ensures !Occurs(s, pat)
    decreases |s|
  {
    if s != [] && s[0] != '[' {
      AbsentToken(s[1..], toks, pat);
      assert s == [s[0]] + s[1..];
      OccursCons(s[0], s[1..], pat);
    } else if s != [] {
      var t :| t in toks && Bracketed(t) && IsPrefix(t, s) && HolesAmong(s[|t|..], toks);
      var rest := s[|t|..];
      AbsentToken(rest, toks, pat);
      assert s == t + rest;
      OccursOtherToken(t, rest, pat);
    }
  }

  /**
   * When every `[` of a template opens a bracketed token and the replacement
   * texts hold no `[`, substituting a list of tokens leaves none of them behind.
   */
  lemma {:induction false} SubstituteClears(s: string, toks: set<string>, pairs: seq<(string, string)>)
    requires HolesAmong(s, toks)
    requires forall i :: 0 <= i < |pairs| ==> Bracketed(pairs[i].0) && '[' !in pairs[i].1
    ensures HolesAmong(Substitute(s, pairs), toks - Placeholders(pairs))
    ensures forall i :: 0 <= i < |pairs| ==> !Occurs(Substitute(s, pairs), pairs[i].0)
    decreases |pairs|
  {
    var r := Substitute(s, pairs);
    if pairs == [] {
      assert toks - Placeholders(pairs) == toks;
    } else {
      var s1 := ReplaceAll(s, pairs[0].0, pairs[0].1);
      ReplaceUsesToken(s, toks, pairs[0].0, pairs[0].1);
      SubstituteClears(s1, toks - {pairs[0].0}, pairs[1..]);
      assert toks - {pairs[0].0} - Placeholders(pairs[1..]) == toks - Placeholders(pairs);
    }
    forall i | 0 <= i < |pairs|
      ensures !Occurs(r, pairs[i].0)
    {
      AbsentToken(r, toks - Placeholders(pairs), pairs[i].0);
    }
  }

  /**
   * Names free of `[` alone do not rule out a leftover token: the replacement
   * can complete a token out of the text around the match.
   */
  lemma BracketFreeNamesAreNotEnough(template: string, name: string)
    requires template == "[s[src_table]]" && name == "rc_table"
    ensures '[' !in name
    ensures ReplaceAll(template, "[src_table]", name) == "[src_table]"
    ensures Occurs(ReplaceAll(template, "[src_table]", name), "[src_table]")
  {
    var pat := ['[', 's'] + name + [']'];
    assert pat == "[src_table]";
    assert template == ['[', 's'] + pat + [']'];
    CompletedToken('s', name);
    assert IsPrefix(pat, pat);
  }

  /**
   * For the token `[c` + `rep` + `]`, replacing it inside `[c` + token + `]`
   * by `rep` rebuilds the token.
   */
  lemma CompletedToken(c: char, rep: string)
    requires c != '[' && '[' !in rep
    ensures var pat := ['[', c] + rep + [']'];
      ReplaceAll(['[', c] + pat + [']'], pat, rep) == pat
  {
    var pat := ['[', c] + rep + [']'];
    var s2 := pat + [']'];
    var s0 := ['[', c] + pat + [']'];
    assert ReplaceAll([']'], pat, rep) == [']'] by {
      ReplaceNoMatch([']'], pat, rep);
      assert [']'][1..] == [];
    }
    calc {
      ReplaceAll(s0, pat, rep);
      { assert |pat| >= 3 && s0[2] == pat[0] == '[';
        assert s0[..|pat|][2] == s0[2];
        if rep != [] {
          assert pat[2] == rep[0] && rep[0] in rep;
        }
        ReplaceNoMatch(s0, pat, rep);
        assert s0[1..] == [c] + s2; }
      ['['] + ReplaceAll([c] + s2, pat, rep);
      { ReplaceCons(c, s2, pat, rep); }
      ['['] + ([c] + ReplaceAll(s2, pat, rep));
      { assert s2[..|pat|] == pat && s2[|pat|..] == [']'];
        ReplaceMatch(s2, pat, rep); }
      ['['] + ([c] + (rep + [']']));
      pat;
    }
  }
}
