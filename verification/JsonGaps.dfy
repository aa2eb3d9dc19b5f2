/**
 What the reader skips between tokens, exactly: white space and, with the flag, comments, as they look in the text.
 Where it stops there is something else, and where it fails there is a slash that begins no complete comment.
 */
module JsonGaps {
  import opened Bytes
  import opened JsonTypes
  import opened JsonLexical
  import opened JsonSpelling

  /** Without the flag: all white space from `p` on, and nothing else. */
  lemma SkipsWhiteSpace(o: Options, s: Text, p: nat, out: seq<Event>)
    requires p <= |s| && !o.comments
    ensures var r := Skip(o, s, p, out);
            r.Ok? && r.out == out && Blank(s, p, r.pos) && !IsBlank(Peek(s, r.pos))
  {
    SpacesEnd(s, p);
  }

  lemma {:induction false} SpacesEnd(s: Text, p: nat)
    requires p <= |s|
    ensures Blank(s, p, SkipSpaces(s, p)) && !IsBlank(Peek(s, SkipSpaces(s, p)))
    decreases |s| - p
  {
    if IsSpace(Peek(s, p)) {
      SpacesEnd(s, p + 1);
      var q := SkipSpaces(s, p + 1);
      assert s[p..q] == [s[p]] + s[p + 1..q];
    }
  }

  // Comments

  /** A star and a slash at `i`. */
  predicate EndsBlock(s: Text, i: nat) {
    Peek(s, i) == 0x2A && Peek(s, i + 1) == 0x2F
  }

  /** No comment of the kind ends, and the text does not, from `p` on in front of `q`. */
  predicate Inside(s: Text, p: nat, q: nat, isBlock: bool) {
    forall i | p <= i < q :: Peek(s, i) != NUL && if isBlock then !EndsBlock(s, i) else Peek(s, i) != 0x0A
  }

  /** The first star and slash behind an opening slash and star end a block comment. */
  predicate IsBlockComment(s: Text, p: nat, q: nat) {
    && Peek(s, p) == 0x2F && Peek(s, p + 1) == 0x2A
    && p + 4 <= q <= |s| && Inside(s, p + 2, q - 2, true) && EndsBlock(s, q - 2)
  }

  /** The first line feed behind two slashes ends a line comment, and so does the end of the text. */
  predicate IsLineComment(s: Text, p: nat, q: nat) {
    && Peek(s, p) == 0x2F && Peek(s, p + 1) == 0x2F && p + 2 <= q <= |s|
    && ((Peek(s, q) == NUL && Inside(s, p + 2, q, false))
        || (p + 2 < q && Peek(s, q - 1) == 0x0A && Inside(s, p + 2, q - 1, false)))
  }

  /** A stretch of white space and comments. */
  ghost predicate IsGap(s: Text, p: nat, q: nat)
    decreases q - p
  {
    || p == q
    || (p < q <= |s| && IsBlank(s[p]) && IsGap(s, p + 1, q))
    || exists m: nat | p < m <= q :: (IsBlockComment(s, p, m) || IsLineComment(s, p, m)) && IsGap(s, m, q)
  }

  lemma {:induction false} BlankThenGap(s: Text, p: nat, m: nat, q: nat)
    requires Blank(s, p, m) && m <= q <= |s| && IsGap(s, m, q)
    ensures IsGap(s, p, q)
    decreases m - p
  {
    if p < m {
      assert s[p] == s[p..m][0] && s[p + 1..m] == s[p..m][1..];
      BlankThenGap(s, p + 1, m, q);
    }
  }

  lemma {:induction false} BlockEnds(s: Text, p: nat, start: nat, out: seq<Event>)
    requires p <= start <= |s| && Inside(s, p, start, true)
    ensures var r := BlockCommentEnd(s, start, out);
            && (r.Ok? ==> start + 2 <= r.pos <= |s| && Inside(s, p, r.pos - 2, true) && EndsBlock(s, r.pos - 2))
            && (r.Err? ==>
                  var e := r.error.offset;
                  r.error.code.UnspecificSyntaxError? && start <= e && Peek(s, e) == NUL && Inside(s, p, e, true))
    decreases |s| - start
  {
    var c := Peek(s, start);
    if c != NUL && !(c == STAR && Peek(s, start + 1) == SLASH) {
      BlockEnds(s, p, start + 1, out);
    }
  }

  lemma {:induction false} LineEnds(s: Text, p: nat, start: nat)
    requires p <= start <= |s| && Inside(s, p, start, false)
    ensures var q := LineCommentEnd(s, start);
            || (Peek(s, q) == NUL && Inside(s, p, q, false))
            || (start < q && Peek(s, q - 1) == 0x0A && Inside(s, p, q - 1, false))
    decreases |s| - start
  {
    var c := Peek(s, start);
    if c != NUL && c != LINE_FEED {
      LineEnds(s, p, start + 1);
    }
  }

  /** A slash at `m` that begins no complete comment, and where the reader notices. */
  predicate IsBroken(s: Text, m: nat, e: Error) {
    && e.code.UnspecificSyntaxError?
    && Peek(s, m) == 0x2F
    && if Peek(s, m + 1) == 0x2A then m + 2 <= e.offset && Peek(s, e.offset) == NUL && Inside(s, m + 2, e.offset, true)
       else Peek(s, m + 1) != 0x2F && e.offset == m + 1
  }

  /** What skipping from `p` on comes to. */
  ghost predicate SkipsGap(s: Text, p: nat, r: Outcome) {
    match r
    case Ok(q, _) => p <= q <= |s| && IsGap(s, p, q) && !IsBlank(Peek(s, q)) && Peek(s, q) != 0x2F
    case Err(e, _) => exists m: nat :: p <= m && IsGap(s, p, m) && IsBroken(s, m, e)
  }

  /** A blank stretch or a comment in front. */
  lemma {:induction false} FrontSkipped(s: Text, p: nat, m: nat, r: Outcome)
    requires p <= m <= |s| && SkipsGap(s, m, r)
    requires Blank(s, p, m) || (p < m && (IsBlockComment(s, p, m) || IsLineComment(s, p, m)))
    ensures SkipsGap(s, p, r)
  {
    forall q: nat | m <= q <= |s| && IsGap(s, m, q) ensures IsGap(s, p, q) {
      if Blank(s, p, m) { BlankThenGap(s, p, m, q); }
    }
    if r.Err? {
      var k: nat :| m <= k && IsGap(s, m, k) && IsBroken(s, k, r.error);
      assert IsGap(s, p, k);
    }
  }

  lemma {:induction false} CommentsAreSkipped(s: Text, p: nat, out: seq<Event>)
    requires p <= |s| && !IsBlank(Peek(s, p))
    ensures SkipsGap(s, p, SkipComments(s, p, out))
    decreases |s| - p
  {
    hide Blank, IsBlank, SkipSpaces;
    if Peek(s, p) != SLASH {
      assert IsGap(s, p, p);
    } else if Peek(s, p + 1) == STAR {
      var r := BlockCommentEnd(s, p + 2, out);
      BlockEnds(s, p + 2, p + 2, out);
      if r.Ok? {
        Rest(s, p, r.pos, out);
      } else {
        assert IsGap(s, p, p) && IsBroken(s, p, r.error);
      }
    } else if Peek(s, p + 1) == SLASH {
      LineEnds(s, p + 2, p + 2);
      Rest(s, p, LineCommentEnd(s, p + 2), out);
    } else {
      var e := Error(UnspecificSyntaxError, p + 1);
      assert IsGap(s, p, p) && IsBroken(s, p, e);
    }
  }

  /** What is skipped behind a comment. */
  lemma {:induction false} Rest(s: Text, p: nat, m: nat, out: seq<Event>)
    requires p < m <= |s| && (IsBlockComment(s, p, m) || IsLineComment(s, p, m))
    ensures SkipsGap(s, p, SkipComments(s, SkipSpaces(s, m), out))
    decreases |s| - p, 0
  {
    hide IsBlockComment, IsLineComment, IsBlank, SkipComments, SkipsGap;
    SpacesEnd(s, m);
    var q := SkipSpaces(s, m);
    CommentsAreSkipped(s, q, out);
    var r := SkipComments(s, q, out);
    FrontSkipped(s, m, q, r);
    FrontSkipped(s, p, m, r);
  }

  /** With the flag: all white space and comments from `p` on, or the first slash that begins no complete comment. */
  lemma SkipsComments(o: Options, s: Text, p: nat, out: seq<Event>)
    requires p <= |s| && o.comments
    ensures Skip(o, s, p, out).out == out && SkipsGap(s, p, Skip(o, s, p, out))
  {
    hide SkipComments, SkipsGap, SkipSpaces;
    SpacesEnd(s, p);
    var q := SkipSpaces(s, p);
    CommentsAreSkipped(s, q, out);
    FrontSkipped(s, p, q, SkipComments(s, q, out));
  }

  // A gap that ends in something else is skipped

  lemma {:induction false} BlockIsRead(s: Text, p: nat, start: nat, q: nat, out: seq<Event>)
    requires p <= start && start + 2 <= q <= |s| && Inside(s, p, q - 2, true) && EndsBlock(s, q - 2)
    ensures BlockCommentEnd(s, start, out) == Ok(q, out)
    decreases q - start
  {
    if start + 2 < q {
      assert Peek(s, start) != NUL && !EndsBlock(s, start);
      BlockIsRead(s, p, start + 1, q, out);
    }
  }

  lemma {:induction false} LineIsRead(s: Text, p: nat, start: nat, q: nat)
    requires p <= start <= q <= |s|
    requires (Peek(s, q) == NUL && Inside(s, p, q, false))
             || (start < q && Peek(s, q - 1) == 0x0A && Inside(s, p, q - 1, false))
    ensures LineCommentEnd(s, start) == q
    decreases q - start
  {
    if start < q && !(start + 1 == q && Peek(s, start) == 0x0A) {
      assert Peek(s, start) != NUL && Peek(s, start) != 0x0A;
      LineIsRead(s, p, start + 1, q);
    }
  }

  lemma {:induction false} CommentIsRead(s: Text, p: nat, m: nat, out: seq<Event>)
    requires IsBlockComment(s, p, m) || IsLineComment(s, p, m)
    ensures p < m <= |s| && Peek(s, p) == SLASH && SkipSpaces(s, p) == p
    ensures SkipComments(s, p, out) == SkipComments(s, SkipSpaces(s, m), out)
  {
    hide Inside;
    if IsBlockComment(s, p, m) {
      BlockIsRead(s, p + 2, p + 2, m, out);
    } else {
      LineIsRead(s, p + 2, p + 2, m);
    }
  }

  lemma {:induction false} GapIsRead(s: Text, p: nat, q: nat, out: seq<Event>)
    requires p <= q <= |s| && IsGap(s, p, q) && !IsBlank(Peek(s, q)) && Peek(s, q) != 0x2F
    ensures SkipComments(s, SkipSpaces(s, p), out) == Ok(q, out)
    decreases q - p
  {
    hide IsBlockComment, IsLineComment;
    if p < q && IsBlank(s[p]) && IsGap(s, p + 1, q) {
      GapIsRead(s, p + 1, q, out);
    } else if m: nat :| p < m <= q && (IsBlockComment(s, p, m) || IsLineComment(s, p, m)) && IsGap(s, m, q) {
      CommentIsRead(s, p, m, out);
      GapIsRead(s, m, q, out);
    }
  }

  /** What may stand between tokens. */
  ghost predicate Gap(o: Options, s: Text, p: nat, q: nat) {
    p <= q <= |s| && if o.comments then IsGap(s, p, q) else Blank(s, p, q)
  }

  /** A character that begins no gap. */
  predicate GapEnds(c: byte) {
    !IsBlank(c) && c != 0x2F
  }

  /** A gap in front of something else is skipped. */
  lemma {:induction false} GapIsSkipped(o: Options, s: Text, p: nat, q: nat, out: seq<Event>)
    requires Gap(o, s, p, q) && GapEnds(Peek(s, q))
    ensures Skip(o, s, p, out) == Ok(q, out)
  {
    hide SkipComments, IsGap;
    if o.comments {
      GapIsRead(s, p, q, out);
    } else {
      BlankIsRead(s, p, q);
    }
  }

  lemma SpaceIsBlank(c: byte)
    ensures IsSpace(c) <==> IsBlank(c)
  {
  }

  lemma {:induction false} BlankIsRead(s: Text, p: nat, q: nat)
    requires Blank(s, p, q) && !IsBlank(Peek(s, q))
    ensures SkipSpaces(s, p) == q
    decreases q - p
  {
    SpaceIsBlank(Peek(s, p));
    hide IsSpace, IsBlank;
    if p < q {
      assert s[p] == s[p..q][0] && s[p + 1..q] == s[p..q][1..];
      BlankIsRead(s, p + 1, q);
    }
  }

  /** And whatever is skipped is a gap in front of something else. */
  lemma SkippedIsGap(o: Options, s: Text, p: nat, out: seq<Event>)
    requires p <= |s| && Skip(o, s, p, out).Ok?
    ensures Gap(o, s, p, Skip(o, s, p, out).pos) && !IsBlank(Peek(s, Skip(o, s, p, out).pos))
  {
    hide Skip, IsGap, Blank;
    if o.comments {
      SkipsComments(o, s, p, out);
    } else {
      SkipsWhiteSpace(o, s, p, out);
    }
  }
}
