/** Rendering of the output pattern: three global, case-insensitive
    replacements of `%author%`, `%title%` and `%album%`, in that order, as
    JavaScript's `String.prototype.replace` performs them with a regular
    expression carrying the `g` and `i` flags and a string replacement. */
module Template {
  import opened Tracks

  const AuthorToken := "%author%"
  const TitleToken := "%title%"
  const AlbumToken := "%album%"

  /** Case folding of the `i` flag (without `u`) on ASCII letters. Since the
      flag never maps a character at or above 128 onto one below it, comparing
      folded characters is exact whenever the token is ASCII, as all three are. */
  function Fold(c: char): (r: char)
    ensures !('a' <= r <= 'z')
    ensures r == c || ('A' <= r <= 'Z' && r as int + 32 == c as int)
  {
    if 'a' <= c <= 'z' then (c as int - 32) as char else c
  }

  /** `tok` occurs at position `i` of `s`, ignoring the case of letters. */
  predicate MatchAt(s: string, i: nat, tok: string)
  {
    i + |tok| <= |s| && forall k :: 0 <= k < |tok| ==> Fold(s[i + k]) == Fold(tok[k])
  }

  /** ECMAScript GetSubstitution for a pattern without capture groups: in the
      replacement value `$$` stands for `$`, `$&` for the matched text, `` $` ``
      for the text before the match and `$'` for the text after it; any other
      `$` (including `$1` and `$<`, which name no group here) is literal. */
  function Substitution(v: string, matched: string, before: string, after: string): (r: string)
    ensures '$' !in v ==> r == v
    ensures v == "$&" ==> r == matched
    decreases |v|
  {
    if |v| >= 2 && v[0] == '$' && v[1] == '$' then "$" + Substitution(v[2..], matched, before, after)
    else if |v| >= 2 && v[0] == '$' && v[1] == '&' then matched + Substitution(v[2..], matched, before, after)
    else if |v| >= 2 && v[0] == '$' && v[1] == '`' then before + Substitution(v[2..], matched, before, after)
    else if |v| >= 2 && v[0] == '$' && v[1] == '\'' then after + Substitution(v[2..], matched, before, after)
    else if v == [] then []
    else
      assert '$' !in v ==> '$' !in v[1..] by {
        if '$' in v[1..] { var j :| 0 <= j < |v[1..]| && v[1..][j] == '$'; assert v[j + 1] == '$'; }
      }
      assert v == [v[0]] + v[1..];
      [v[0]] + Substitution(v[1..], matched, before, after)
  }

  /** The global scan from position `i`: at a match, emit the substituted
      value and resume after the match; otherwise copy one character. The
      emitted value is never scanned again by this pass. With a value free of
      `$`, the output is the cut of `s[i..]` into literals and placeholder
      occurrences with every occurrence replaced by the value. */
  function ReplaceFrom(s: string, tok: string, v: string, i: nat): (r: string)
    requires tok != [] && i <= |s|
    ensures '$' !in v ==> r == Fill(Tokenize(s, tok, i), v)
    decreases |s| - i
  {
    if i == |s| then []
    else if MatchAt(s, i, tok) then
      var ps := Tokenize(s, tok, i);
      assert ps == [Hole(s[i..i + |tok|])] + Tokenize(s, tok, i + |tok|);
      assert ps[1..] == Tokenize(s, tok, i + |tok|);
      Substitution(v, s[i..i + |tok|], s[..i], s[i + |tok|..]) + ReplaceFrom(s, tok, v, i + |tok|)
    else
      var ps := Tokenize(s, tok, i);
      assert ps[1..] == Tokenize(s, tok, i + 1);
      [s[i]] + ReplaceFrom(s, tok, v, i + 1)
  }

  /** `s.replace(/tok/gi, v)`: with a value free of `$`, the fill of the cut
      the scan finds; text without an occurrence comes back unchanged. */
  function ReplaceAllCI(s: string, tok: string, v: string): (r: string)
    requires tok != []
    ensures '$' !in v ==> r == Fill(Tokenize(s, tok, 0), v)
    ensures (forall j :: 0 <= j < |s| ==> !MatchAt(s, j, tok)) ==> r == s
  {
    if forall j :: 0 <= j < |s| ==> !MatchAt(s, j, tok) then
      ReplaceWithoutMatch(s, tok, v, 0);
      ReplaceFrom(s, tok, v, 0)
    else ReplaceFrom(s, tok, v, 0)
  }

  /** The pattern after the author, title and album passes, in that order.
      A pattern without any placeholder is written out unchanged. */
  function Render(pattern: string, t: Track): (r: string)
    ensures !HasPlaceholder(pattern) ==> r == pattern
  {
    ReplaceAllCI(ReplaceAllCI(ReplaceAllCI(pattern, AuthorToken, t.author), TitleToken, t.title), AlbumToken, t.album)
  }

  /** With values free of `$`, each pass fills the cut of the previous
      output: first the author holes, then the title holes, then the album
      holes. */
  lemma RenderFillsEachPass(pattern: string, t: Track)
    requires '$' !in t.author && '$' !in t.title && '$' !in t.album
    ensures Render(pattern, t) ==
      Fill(Tokenize(Fill(Tokenize(Fill(Tokenize(pattern, AuthorToken, 0), t.author), TitleToken, 0), t.title), AlbumToken, 0), t.album)
  {
    // Each pass's own fill clause applies, since every value is free of `$`.
  }

  // ---------------------------------------------------------------------
  // A reference description of one pass: the input cut into literal
  // characters and placeholder occurrences.

  datatype Piece = Lit(c: char) | Hole(text: string)

  /** The text a sequence of pieces spells. */
  function Show(ps: seq<Piece>): string
  {
    if ps == [] then []
    else (match ps[0] case Lit(c) => [c] case Hole(m) => m) + Show(ps[1..])
  }

  /** The text with every hole replaced by `v` and every literal kept. */
  function Fill(ps: seq<Piece>, v: string): string
  {
    if ps == [] then []
    else (match ps[0] case Lit(c) => [c] case Hole(_) => v) + Fill(ps[1..], v)
  }

  /** Every hole is an occurrence of `tok` in some letter case, and no
      occurrence of `tok` starts at a literal: the cut finds every occurrence,
      leftmost first and without overlap. */
  predicate Segmented(ps: seq<Piece>, tok: string)
  {
    if ps == [] then true
    else
      (match ps[0]
       case Lit(_) => !MatchAt(Show(ps), 0, tok)
       case Hole(m) => |m| == |tok| && MatchAt(m, 0, tok))
      && Segmented(ps[1..], tok)
  }

  lemma MatchAtSuffix(s: string, i: nat, tok: string)
    requires i <= |s|
    ensures MatchAt(s, i, tok) <==> MatchAt(s[i..], 0, tok)
  {
  }

  /** The cut of `s[i..]` that the scan of ReplaceFrom finds. */
  function Tokenize(s: string, tok: string, i: nat): (ps: seq<Piece>)
    requires tok != [] && i <= |s|
    ensures Segmented(ps, tok) && Show(ps) == s[i..]
    decreases |s| - i
  {
    if i == |s| then []
    else if MatchAt(s, i, tok) then
      MatchAtSuffix(s, i, tok);
      assert s[i..] == s[i..i + |tok|] + s[i + |tok|..];
      assert MatchAt(s[i..i + |tok|], 0, tok) by {
        forall k | 0 <= k < |tok| ensures Fold(s[i..i + |tok|][k]) == Fold(tok[k]) {
          assert s[i..i + |tok|][k] == s[i + k];
        }
      }
      [Hole(s[i..i + |tok|])] + Tokenize(s, tok, i + |tok|)
    else
      var ps := [Lit(s[i])] + Tokenize(s, tok, i + 1);
      assert ps[1..] == Tokenize(s, tok, i + 1);
      assert s[i..] == [s[i]] + s[i + 1..];
      MatchAtSuffix(s, i, tok);
      ps
  }

  /** The cut is unique: any cut of `s[i..]` whose holes are occurrences of
      `tok` and whose literals start none is the one the scan finds. */
  lemma {:induction false} TokenizeUnique(s: string, tok: string, i: nat, ps: seq<Piece>)
    requires tok != [] && i <= |s|
    requires Segmented(ps, tok) && Show(ps) == s[i..]
    ensures ps == Tokenize(s, tok, i)
    decreases |ps|
  {
    if ps == [] {
      assert |s[i..]| == 0;
    } else if ps[0].Lit? {
      LitHead(s, tok, i, ps);
      TokenizeUnique(s, tok, i + 1, ps[1..]);
      assert ps == [ps[0]] + ps[1..];
    } else {
      HoleHead(s, tok, i, ps);
      TokenizeUnique(s, tok, i + |tok|, ps[1..]);
      assert ps == [ps[0]] + ps[1..];
    }
  }

  lemma LitHead(s: string, tok: string, i: nat, ps: seq<Piece>)
    requires tok != [] && i <= |s|
    requires ps != [] && ps[0].Lit? && Segmented(ps, tok) && Show(ps) == s[i..]
    ensures i < |s| && ps[0] == Lit(s[i]) && !MatchAt(s, i, tok)
    ensures Segmented(ps[1..], tok) && Show(ps[1..]) == s[i + 1..]
    ensures Tokenize(s, tok, i) == [Lit(s[i])] + Tokenize(s, tok, i + 1)
  {
    assert s[i..] == [ps[0].c] + Show(ps[1..]);
    assert s[i + 1..] == s[i..][1..];
    MatchAtSuffix(s, i, tok);
  }

  lemma HoleHead(s: string, tok: string, i: nat, ps: seq<Piece>)
    requires tok != [] && i <= |s|
    requires ps != [] && ps[0].Hole? && Segmented(ps, tok) && Show(ps) == s[i..]
    ensures i + |tok| <= |s| && ps[0] == Hole(s[i..i + |tok|]) && MatchAt(s, i, tok)
    ensures Segmented(ps[1..], tok) && Show(ps[1..]) == s[i + |tok|..]
    ensures Tokenize(s, tok, i) == [Hole(s[i..i + |tok|])] + Tokenize(s, tok, i + |tok|)
  {
    var m := ps[0].text;
    assert s[i..] == m + Show(ps[1..]);
    assert s[i..][..|m|] == m;
    assert s[i..i + |tok|] == m;
    assert s[i + |tok|..] == s[i..][|m|..];
    assert MatchAt(s, i, tok) by {
      forall k | 0 <= k < |tok| ensures Fold(s[i + k]) == Fold(tok[k]) {
        assert s[i + k] == m[k];
      }
    }
  }

  /** One pass replaces exactly the holes of any cut of its input: whatever
      the letter case of an occurrence, it becomes the value, and every other
      character is kept verbatim. */
  lemma ReplaceFillsHoles(s: string, tok: string, v: string, i: nat, ps: seq<Piece>)
    requires tok != [] && i <= |s| && '$' !in v
    requires Segmented(ps, tok) && Show(ps) == s[i..]
    ensures ReplaceFrom(s, tok, v, i) == Fill(ps, v)
  {
    TokenizeUnique(s, tok, i, ps);
  }

  /** Text without an occurrence of the token is returned unchanged, whatever
      the value. */
  lemma {:induction false} ReplaceWithoutMatch(s: string, tok: string, v: string, i: nat)
    requires tok != [] && i <= |s|
    requires forall j :: i <= j < |s| ==> !MatchAt(s, j, tok)
    ensures ReplaceFrom(s, tok, v, i) == s[i..]
    decreases |s| - i
  {
    if i < |s| {
      ReplaceWithoutMatch(s, tok, v, i + 1);
      assert s[i..] == [s[i]] + s[i + 1..];
    }
  }

  /** The value `$&` puts every match back as it was written: a pass with it
      reproduces its input, so the scan loses and invents no character. */
  lemma {:induction false} ReplaceWithMatchIsIdentity(s: string, tok: string, i: nat)
    requires tok != [] && i <= |s|
    ensures ReplaceFrom(s, tok, "$&", i) == s[i..]
    decreases |s| - i
  {
    if i < |s| {
      if MatchAt(s, i, tok) {
        var m := s[i..i + |tok|];
        assert Substitution("$&", m, s[..i], s[i + |tok|..]) == m;
        assert ReplaceFrom(s, tok, "$&", i) == m + ReplaceFrom(s, tok, "$&", i + |tok|);
        ReplaceWithMatchIsIdentity(s, tok, i + |tok|);
        assert s[i..] == m + s[i + |tok|..];
      } else {
        assert ReplaceFrom(s, tok, "$&", i) == [s[i]] + ReplaceFrom(s, tok, "$&", i + 1);
        ReplaceWithMatchIsIdentity(s, tok, i + 1);
        assert s[i..] == [s[i]] + s[i + 1..];
      }
    }
  }

  // ---------------------------------------------------------------------
  // Properties of the three chained passes.

  predicate HasPlaceholder(s: string)
  {
    exists j :: 0 <= j < |s| && (MatchAt(s, j, AuthorToken) || MatchAt(s, j, TitleToken) || MatchAt(s, j, AlbumToken))
  }

  /** A whole-pattern placeholder is replaced by the value, in any letter case. */
  lemma ReplaceWholeToken(tok: string, m: string, v: string)
    requires tok != [] && '$' !in v
    requires |m| == |tok| && MatchAt(m, 0, tok)
    ensures ReplaceAllCI(m, tok, v) == v
  {
    ReplaceFillsHoles(m, tok, v, 0, [Hole(m)]);
  }

  /** The author value is inserted first and then scanned by the title and
      album passes, so placeholders inside it are expanded. */
  lemma RenderRescansAuthor(t: Track)
    requires '$' !in t.author
    ensures Render(AuthorToken, t) == ReplaceAllCI(ReplaceAllCI(t.author, TitleToken, t.title), AlbumToken, t.album)
  {
    ReplaceWholeToken(AuthorToken, AuthorToken, t.author);
  }

  /** For instance an author `%title%` is shown as the title. */
  lemma AuthorNamingTitlePlaceholder(title: string)
    requires '$' !in title && forall j :: 0 <= j < |title| ==> !MatchAt(title, j, AlbumToken)
    ensures Render(AuthorToken, Track(TitleToken, title, "", "")) == title
  {
    RenderRescansAuthor(Track(TitleToken, title, "", ""));
    ReplaceWholeToken(TitleToken, TitleToken, title);
    ReplaceWithoutMatch(title, AlbumToken, "", 0);
  }

  /** The album pass runs last, so the album value is never scanned again:
      even an album named `%author%` is written as it is. */
  lemma RenderKeepsAlbumVerbatim(t: Track)
    requires '$' !in t.album
    ensures Render(AlbumToken, t) == t.album
  {
    ReplaceWithoutMatch(AlbumToken, AuthorToken, t.author, 0);
    forall j | 0 <= j < |AlbumToken| ensures !MatchAt(AlbumToken, j, TitleToken) {
      if j == 0 { assert Fold(AlbumToken[1]) != Fold(TitleToken[1]); }
    }
    ReplaceWithoutMatch(AlbumToken, TitleToken, t.title, 0);
    ReplaceWholeToken(AlbumToken, AlbumToken, t.album);
  }

  /** Placeholders match in any letter case. */
  lemma RenderIgnoresPlaceholderCase(t: Track)
    requires '$' !in t.author
    ensures Render("%AUTHOR%", t) == Render(AuthorToken, t)
  {
    ReplaceWholeToken(AuthorToken, "%AUTHOR%", t.author);
    ReplaceWholeToken(AuthorToken, AuthorToken, t.author);
  }
}
