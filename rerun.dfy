/**
 The file as the module reads and writes it. The lines the pass reads are
 the file's text cut after each line feed, and the file it leaves is the
 text of the pieces it writes, one after another. The results here run the
 same request a second time on the file a first run left, read back line by
 line, rather than on the pieces themselves.
 */
module FileRerun {
  import opened Wrappers
  import opened Text
  import opened Limits
  import opened Reconcile
  import opened Properties

  /** A line the second run passes over untouched: no marker, and settled. */
  predicate Quiet(req: Request, l: string) {
    !IsMarker(l) && Settled(req, l)
  }

  /** Lines as a file read line by line gives them, whose last line, unless
      it is a marker, ends in a line feed. */
  predicate FileLines(lines: seq<string>) {
    forall k :: 0 <= k < |lines| ==> lines[k] != [] && BreakAtEnd(lines[k]) && (Terminated(lines[k]) || IsMarker(lines[k]))
  }

  // ----- line feeds in what the pass writes -----

  /** A word without whitespace has no line feed. */
  lemma NoSpaceNoBreak(w: string)
    requires NoSpace(w)
    ensures '\n' !in w
  {
    forall i | 0 <= i < |w|
      ensures w[i] != '\n'
    {
      assert !IsSpace(w[i]);
    }
  }

  /** A text without line feeds is a line of its own once one is added. */
  lemma LineOf(u: string)
    requires '\n' !in u
    ensures var l := u + "\n";
      Terminated(l) && BreakAtEnd(l) && Lines(l) == [l]
  {
    var l := u + "\n";
    assert forall i :: 0 <= i < |l| - 1 ==> l[i] == u[i];
    WholeLine(l);
  }

  /** A line with a line feed at most at its end reads as itself. */
  lemma WholeLine(l: string)
    requires l != [] && BreakAtEnd(l)
    ensures Lines(l) == [l]
  {
    LinesCons(l, []);
    assert l + [] == l;
  }

  /** A text with a line feed at most at its end: without one it has none,
      and with one it is the rest followed by it. */
  lemma BreakSplit(c: string)
    requires BreakAtEnd(c)
    ensures !Terminated(c) ==> '\n' !in c
    ensures Terminated(c) ==> '\n' !in c[..|c| - 1] && c == c[..|c| - 1] + "\n"
  {
    if Terminated(c) {
      var u := c[..|c| - 1];
      assert forall i :: 0 <= i < |u| ==> u[i] == c[i];
      assert c == u + "\n";
    }
  }

  /** Two texts without line feeds make one. */
  lemma NoBreakAppend(x: string, y: string)
    requires '\n' !in x && '\n' !in y
    ensures '\n' !in x + y
  {
  }

  /** A record text whose comment holds no line feed is one line. */
  lemma OneLine(j: string, c: string, t: string)
    requires '\n' !in j && '\n' !in c && t == j + c + "\n"
    ensures Terminated(t) && Lines(t) == [t]
  {
    NoBreakAppend(j, c);
    LineOf(j + c);
  }

  /** A record text whose comment ends in a line feed is the record, then an
      empty line. */
  lemma TwoLines(j: string, c': string, c: string, t: string, t': string)
    requires '\n' !in j && '\n' !in c' && c == c' + "\n"
    requires t == j + c + "\n" && t' == j + c' + "\n"
    ensures Terminated(t) && Lines(t) == [t', "\n"]
  {
    NoBreakAppend(j, c');
    LineOf(j + c');
    LineOf([]);
    assert [] + "\n" == "\n";
    assert t == t' + "\n";
    LinesCons(t', "\n");
  }

  /** A record's key fields and value carry no line feed. */
  lemma KeyTextJoin(req: Request, v: int, c: string)
    requires PlainWord(req.domain)
    ensures var j := Join([req.domain, TypeName(req.limitType), ItemName(req.limitItem), IntToString(v)], '\t');
      '\n' !in j && KeyText(req, v, c) == j + c + "\n"
  {
    var ws := [req.domain, TypeName(req.limitType), ItemName(req.limitItem), IntToString(v)];
    TypeNamePlain(req.limitType);
    ItemNamePlain(req.limitItem);
    forall k | 0 <= k < |ws|
      ensures '\n' !in ws[k]
    {
      NoSpaceNoBreak(ws[k]);
    }
    JoinAvoids(ws, '\t', '\n');
    RecordTextJoin(req.domain, TypeName(req.limitType), ItemName(req.limitItem), v, c);
  }

  /** The text of a record whose comment holds no line feed is one line. */
  lemma KeyTextOneLine(req: Request, v: int, c: string)
    requires PlainWord(req.domain) && '\n' !in c
    ensures Terminated(KeyText(req, v, c)) && Lines(KeyText(req, v, c)) == [KeyText(req, v, c)]
  {
    var j := Join([req.domain, TypeName(req.limitType), ItemName(req.limitItem), IntToString(v)], '\t');
    KeyTextJoin(req, v, c);
    OneLine(j, c, KeyText(req, v, c));
  }

  /** The text of a record whose comment ends in a line feed reads as the
      record without it, then an empty line. */
  lemma KeyTextTwoLines(req: Request, v: int, c': string)
    requires PlainWord(req.domain) && '\n' !in c'
    ensures Terminated(KeyText(req, v, c' + "\n"))
    ensures Lines(KeyText(req, v, c' + "\n")) == [KeyText(req, v, c'), "\n"]
  {
    var j := Join([req.domain, TypeName(req.limitType), ItemName(req.limitItem), IntToString(v)], '\t');
    KeyTextJoin(req, v, c' + "\n");
    KeyTextJoin(req, v, c');
    TwoLines(j, c', c' + "\n", KeyText(req, v, c' + "\n"), KeyText(req, v, c'));
  }

  /** A comment the pass built, less its final line feed, is one it built. */
  lemma IntroducedTrim(c: string)
    requires Introduced(c) && Terminated(c)
    ensures Introduced(c[..|c| - 1])
  {
    assert c[..|c| - 1][..2] == c[..2];
  }

  // ----- what the second run reads from each written piece -----

  /** The text after a line's first '#' has a line feed at most at its end
      when the line does. */
  lemma AfterHashBreak(s: string)
    requires BreakAtEnd(s)
    ensures BreakAtEnd(AfterHash(s))
  {
    var r := AfterHash(s);
    if '#' in s {
      var x := CutAtHash(s) + "#";
      assert s == x + r;
      forall i | 0 <= i < |r| - 1
        ensures r[i] != '\n'
      {
        assert r[i] == s[|x| + i];
      }
    }
  }

  /** The trailing comment of an active line with a line feed at most at its
      end has one at most at its end too. */
  lemma OldCommentBreak(l: string)
    requires BreakAtEnd(l) && IsActive(Classify(l))
    ensures BreakAtEnd(Classify(l).oldComment)
  {
    ClassifyActive(l);
    AfterHashBreak(l);
  }

  /** The carried comment keeps a line feed at most at its end. */
  lemma NextCommentBreak(c: string, oldComment: string)
    requires BreakAtEnd(c) && BreakAtEnd(oldComment)
    ensures BreakAtEnd(NextComment(c, oldComment))
  {
    var c' := if c == [] then oldComment else c;
    if c' != [] {
      var r := "\t#" + c';
      forall i | 0 <= i < |r| - 1
        ensures r[i] != '\n'
      {
        if i >= 2 {
          assert r[i] == c'[i - 2];
        }
      }
    }
  }

  /** Over lines with a line feed at most at their ends, the carried comment
      has one at most at its end whenever the requested comment does. */
  lemma {:induction false} CommentAfterBreak(c0: string, ls: seq<string>)
    requires BreakAtEnd(c0) && forall k :: 0 <= k < |ls| ==> BreakAtEnd(ls[k])
    ensures BreakAtEnd(CommentAfter(c0, OldComments(ls)))
  {
    if ls != [] {
      var init := ls[..|ls| - 1];
      var l := ls[|ls| - 1];
      assert ls == init + [l];
      CommentAfterBreak(c0, init);
      CommentAfterSnoc(c0, init, l);
      if IsActive(Classify(l)) {
        OldCommentBreak(l);
        NextCommentBreak(CommentAfter(c0, OldComments(init)), Classify(l).oldComment);
      }
    }
  }

  /** The empty line is a blank line the second run passes over. */
  lemma BlankQuiet(req: Request)
    ensures Quiet(req, "\n") && !Matches(req, "\n")
  {
    assert !StartsWith("\n", "#");
    assert Classify("\n").Blank?;
  }

  /** A record of the key at a value the policy keeps is one the second run
      passes over, and it carries the key. */
  lemma KeyTextQuiet(req: Request, t: int, c: string)
    requires PlainWord(req.domain) && Introduced(c) && Target(req, t) == t
    ensures Quiet(req, KeyText(req, t, c)) && Matches(req, KeyText(req, t, c))
  {
    KeyTextReads(req, t, c);
  }

  /** Lines the second run all passes over. */
  predicate AllQuiet(req: Request, ls: seq<string>) {
    forall m :: 0 <= m < |ls| ==> Quiet(req, ls[m])
  }

  /** One or two lines the second run passes over. */
  lemma QuietOne(req: Request, a: string)
    requires Quiet(req, a)
    ensures AllQuiet(req, [a])
  {
  }

  lemma QuietTwo(req: Request, a: string, b: string)
    requires Quiet(req, a) && Quiet(req, b)
    ensures AllQuiet(req, [a, b])
  {
  }

  /** Every line of such a record, read back from the file, is one the second
      run passes over, and its first line carries the key. */
  lemma KeyLinesQuiet(req: Request, t: int, c: string)
    requires PlainWord(req.domain) && Introduced(c) && BreakAtEnd(c) && Target(req, t) == t
    ensures var ls := Lines(KeyText(req, t, c));
      Terminated(KeyText(req, t, c)) && ls != [] && AllQuiet(req, ls) && Matches(req, ls[0])
  {
    BreakSplit(c);
    if Terminated(c) {
      var c' := c[..|c| - 1];
      IntroducedTrim(c);
      KeyTextQuiet(req, t, c');
      BlankQuiet(req);
      QuietTwo(req, KeyText(req, t, c'), "\n");
      KeyTextTwoLines(req, t, c');
    } else {
      KeyTextQuiet(req, t, c);
      QuietOne(req, KeyText(req, t, c));
      KeyTextOneLine(req, t, c);
    }
  }

  /** A piece the second run reads back as complete lines it passes over, the
      first of them carrying the key when the piece does. */
  predicate PieceQuiet(req: Request, piece: string) {
    && Terminated(piece) && Lines(piece) != [] && AllQuiet(req, Lines(piece))
    && (Matches(req, piece) ==> Matches(req, Lines(piece)[0]))
  }

  /** The comment carried past a kept line has a line feed at most at its
      end, when the requested comment does. */
  lemma CommentBreakAt(c0: string, lines: seq<string>, k: nat)
    requires BreakAtEnd(c0) && FileLines(lines) && k < |Body(lines)|
    ensures BreakAtEnd(CommentAfter(c0, OldComments(Body(lines)[..k + 1])))
  {
    var body := Body(lines);
    BodyKeeps(l => BreakAtEnd(l), lines);
    assert forall i :: 0 <= i < k + 1 ==> body[..k + 1][i] == body[i];
    CommentAfterBreak(c0, body[..k + 1]);
  }

  /** A kept line is a complete line of the file. */
  lemma KeptLine(lines: seq<string>, k: nat)
    requires FileLines(lines) && k < |Body(lines)|
    ensures var l := Body(lines)[k];
      Terminated(l) && Lines(l) == [l]
  {
    BodyLine(lines, k);
    BodyKeeps(l => l != [] && BreakAtEnd(l) && (Terminated(l) || IsMarker(l)), lines);
    WholeLine(Body(lines)[k]);
  }

  /** A line's emission is a piece the second run passes over. */
  lemma EmitQuiet(req: Request, lines: seq<string>, c: string, k: nat)
    requires FirstBad(lines) < 0 && PlainWord(req.domain) && FileLines(lines)
    requires Introduced(c) && BreakAtEnd(req.comment)
    requires k < |Body(lines)|
    ensures PieceQuiet(req, WrittenLines(req, lines, c)[k])
  {
    var body := Body(lines);
    WrittenLinesAt(req, lines, c, k);
    RerunAt(req, lines, c, k);
    ExpectedAt(req, body, k);
    var l := body[k];
    var cls := Classify(l);
    if RewritesClass(req, cls) {
      var ck := CommentAfter(req.comment, OldComments(body[..k + 1]));
      CommentAtActive(req, body, k);
      CommentBreakAt(req.comment, lines, k);
      TargetSettles(req, cls.actual);
      KeyLinesQuiet(req, Target(req, cls.actual), ck);
    } else {
      KeptLine(lines, k);
      QuietOne(req, l);
    }
  }

  /** Each piece a run writes before the marker is one the second run
      passes over. */
  lemma WrittenQuiet(req: Request, lines: seq<string>, c: string, k: nat)
    requires FirstBad(lines) < 0 && PlainWord(req.domain) && FileLines(lines)
    requires Introduced(c) && BreakAtEnd(c) && BreakAtEnd(req.comment)
    requires k < |Body(lines)| + (if LastMatch(req, Body(lines)) < 0 then 1 else 0)
    ensures k < |WrittenLines(req, lines, c)| && PieceQuiet(req, WrittenLines(req, lines, c)[k])
  {
    WrittenLinesAt(req, lines, c, k);
    if k < |Body(lines)| {
      EmitQuiet(req, lines, c, k);
    } else {
      assert Target(req, req.value) == req.value;
      KeyLinesQuiet(req, req.value, c);
    }
  }

  /** The marker reads back as itself. */
  lemma EndOfFileLine()
    ensures PieceLines([EndOfFile]) == [EndOfFile]
  {
    assert '\n' !in EndOfFile;
    WholeLine(EndOfFile);
    assert [EndOfFile][1..] == [];
  }

  // ----- the second run over the file a run left -----

  /** Lines the second run passes over, then more of them. */
  lemma QuietAppend(req: Request, a: seq<string>, b: seq<string>)
    requires AllQuiet(req, a) && AllQuiet(req, b)
    ensures AllQuiet(req, a + b)
  {
    forall j | 0 <= j < |a + b|
      ensures Quiet(req, (a + b)[j])
    {
      if j < |a| {
        assert (a + b)[j] == a[j];
      } else {
        assert (a + b)[j] == b[j - |a|];
      }
    }
  }

  /** Pieces each of whose lines the second run passes over give lines it
      all passes over. */
  lemma {:induction false} QuietPieces(req: Request, ps: seq<string>)
    requires forall i :: 0 <= i < |ps| ==> AllQuiet(req, Lines(ps[i]))
    ensures AllQuiet(req, PieceLines(ps))
  {
    if ps != [] {
      assert forall i :: 0 <= i < |ps[1..]| ==> ps[1..][i] == ps[i + 1];
      QuietPieces(req, ps[1..]);
      QuietAppend(req, Lines(ps[0]), PieceLines(ps[1..]));
    }
  }

  /** The pieces a run writes before the marker are complete and each one
      the second run passes over. */
  lemma KeptPiecesQuiet(req: Request, lines: seq<string>, c: string)
    requires FirstBad(lines) < 0 && PlainWord(req.domain) && FileLines(lines)
    requires Introduced(c) && BreakAtEnd(c) && BreakAtEnd(req.comment)
    ensures var w := WrittenLines(req, lines, c);
      var n := |Body(lines)| + (if LastMatch(req, Body(lines)) < 0 then 1 else 0);
      && n <= |w|
      && forall i :: 0 <= i < n ==> Terminated(w[i]) && PieceQuiet(req, w[i])
  {
    var n := |Body(lines)| + (if LastMatch(req, Body(lines)) < 0 then 1 else 0);
    WrittenLinesAt(req, lines, c, 0);
    forall i | 0 <= i < n
      ensures Terminated(WrittenLines(req, lines, c)[i]) && PieceQuiet(req, WrittenLines(req, lines, c)[i])
    {
      WrittenQuiet(req, lines, c, i);
    }
  }

  /** The lines of the pieces a run writes before the marker are each one the
      second run passes over, and one of them carries the key. */
  lemma KeptPieces(req: Request, lines: seq<string>, c: string)
    requires FirstBad(lines) < 0 && PlainWord(req.domain) && FileLines(lines)
    requires Introduced(c) && BreakAtEnd(c) && BreakAtEnd(req.comment)
    ensures var w := WrittenLines(req, lines, c);
      var n := |Body(lines)| + (if LastMatch(req, Body(lines)) < 0 then 1 else 0);
      var ls := PieceLines(w[..n]);
      && n <= |w|
      && AllQuiet(req, ls)
      && exists j :: 0 <= j < |ls| && Matches(req, ls[j])
  {
    var w := WrittenLines(req, lines, c);
    var n := |Body(lines)| + (if LastMatch(req, Body(lines)) < 0 then 1 else 0);
    var p := w[..n];
    KeptPiecesQuiet(req, lines, c);
    assert forall i :: 0 <= i < |p| ==> p[i] == w[i];
    QuietPieces(req, p);
    RerunMessage(req, lines, c);
    LastMatchMatches(req, p);
    var i := LastMatch(req, p);
    assert PieceQuiet(req, p[i]);
    PieceLinesHas(p, i);
  }

  /** The file a run left, read back line by line, is the lines of its pieces
      before the marker, then the marker when it wrote one. */
  lemma WrittenFile(req: Request, lines: seq<string>, c: string)
    requires FirstBad(lines) < 0 && PlainWord(req.domain) && FileLines(lines)
    requires Introduced(c) && BreakAtEnd(c) && BreakAtEnd(req.comment)
    ensures var w := WrittenLines(req, lines, c);
      var n := |Body(lines)| + (if LastMatch(req, Body(lines)) < 0 then 1 else 0);
      && n <= |w|
      && Lines(Concat(w)) == PieceLines(w[..n]) + (if HasSentinel(lines) then [EndOfFile] else [])
  {
    var w := WrittenLines(req, lines, c);
    var n := |Body(lines)| + (if LastMatch(req, Body(lines)) < 0 then 1 else 0);
    var m: seq<string> := if HasSentinel(lines) then [EndOfFile] else [];
    RerunPrefix(req, lines, c);
    KeptPiecesQuiet(req, lines, c);
    LinesOfPieces(w);
    PieceLinesAppend(w[..n], m);
    EndOfFileLine();
    assert PieceLines(m) == m;
  }

  /** Lines none of which is a marker, then perhaps the marker, keep the
      former and have a marker exactly when the latter is there. */
  lemma BodyThenMarker(ls: seq<string>, m: seq<string>)
    requires forall k :: 0 <= k < |ls| ==> !IsMarker(ls[k])
    requires m == [] || m == [EndOfFile]
    ensures Body(ls + m) == ls && HasSentinel(ls + m) == (m != [])
  {
    BodyUnmarked(ls);
    HasSentinelExists(ls);
    assert EndOfFile[..|EndOfFile|] == EndOfFile;
    if m == [] {
      assert ls + m == ls;
    } else {
      assert (ls + m)[..|ls|] == ls;
      HasSentinelSnoc(ls, EndOfFile);
    }
  }

  /** Lines the second run passes over, then perhaps the marker, are all
      settled. */
  lemma QuietThenMarker(req: Request, ls: seq<string>, m: seq<string>)
    requires AllQuiet(req, ls) && (m == [] || m == [EndOfFile])
    ensures forall k :: 0 <= k < |ls + m| ==> Settled(req, (ls + m)[k])
    ensures Body(ls + m) == ls && HasSentinel(ls + m) == (m != [])
  {
    MarkerSettled(req);
    forall k | 0 <= k < |ls + m|
      ensures Settled(req, (ls + m)[k])
    {
      if k < |ls| {
        assert (ls + m)[k] == ls[k];
      }
    }
    BodyThenMarker(ls, m);
  }

  /** The second run over the file a first run left, read back line by line,
      writes those lines again and reports no change; its message is a line
      of the key. */
  lemma FileRerunCore(req: Request, lines: seq<string>, c: string)
    requires !(req.useMax && req.useMin)
    requires FirstBad(lines) < 0 && PlainWord(req.domain) && FileLines(lines)
    requires Introduced(c) && BreakAtEnd(c) && BreakAtEnd(req.comment)
    ensures var again := Reconciled(req, Lines(Concat(WrittenLines(req, lines, c))));
      && again.Ok? && !again.value.changed
      && again.value.lines == Lines(Concat(WrittenLines(req, lines, c)))
      && Matches(req, again.value.message)
    ensures LastMatch(req, Body(Lines(Concat(WrittenLines(req, lines, c))))) >= 0
  {
    var w := WrittenLines(req, lines, c);
    var n := |Body(lines)| + (if LastMatch(req, Body(lines)) < 0 then 1 else 0);
    var m: seq<string> := if HasSentinel(lines) then [EndOfFile] else [];
    var ls := PieceLines(w[..n]);
    WrittenFile(req, lines, c);
    KeptPieces(req, lines, c);
    StableFile(req, ls, m);
  }

  /** A run over lines it all passes over, one of them carrying the key, then
      perhaps the marker, writes them again and reports no change. */
  lemma StableFile(req: Request, ls: seq<string>, m: seq<string>)
    requires !(req.useMax && req.useMin)
    requires AllQuiet(req, ls) && (m == [] || m == [EndOfFile])
    requires exists j :: 0 <= j < |ls| && Matches(req, ls[j])
    ensures var again := Reconciled(req, ls + m);
      again.Ok? && !again.value.changed && again.value.lines == ls + m && Matches(req, again.value.message)
    ensures LastMatch(req, Body(ls + m)) >= 0
  {
    var f := ls + m;
    QuietThenMarker(req, ls, m);
    var j :| 0 <= j < |ls| && Matches(req, ls[j]);
    assert f[j] == ls[j];
    StableRun(req, f);
    MarkerTail(ls, m, Body(f), HasSentinel(f));
    LastMatchMatches(req, Body(f));
  }

  /** The kept lines, then the marker exactly when there was one. */
  lemma MarkerTail(ls: seq<string>, m: seq<string>, b: seq<string>, h: bool)
    requires b == ls && h == (m != []) && (m == [] || m == [EndOfFile])
    ensures b + (if h then [EndOfFile] else []) == ls + m
  {
  }

  /** Whether the last line of a file read line by line ends in a line feed,
      or is the marker. */
  predicate EndsComplete(ls: seq<string>) {
    ls == [] || Terminated(ls[|ls| - 1]) || IsMarker(ls[|ls| - 1])
  }

  /** Running the same request again on the file a run left, read back line
      by line, finds those lines as they are: it rewrites nothing, appends
      nothing, reports no change, and leaves the file's text as it was; its
      message is a line of the key. This needs a domain that is one plain
      field, a requested comment with no line feed before its end and, when
      one is requested, some line past the blank test, and a file whose last
      line ends in a line feed or is the marker (see the findings). */
  lemma FileRerunUnchanged(req: Request, text: string)
    requires Reconciled(req, Lines(text)).Ok? && PlainWord(req.domain) && BreakAtEnd(req.comment)
    requires req.comment == [] || exists k :: 0 <= k < |Lines(text)| && IsActive(Classify(Lines(text)[k]))
    requires EndsComplete(Lines(text))
    ensures var file := Concat(Reconciled(req, Lines(text)).value.lines);
      var again := Reconciled(req, Lines(file));
      && again.Ok? && !again.value.changed
      && again.value.lines == Lines(file) && Concat(again.value.lines) == file
      && Matches(req, again.value.message)
  {
    var lines := Lines(text);
    ReconciledOk(req, lines);
    CarriedIntroduced(req, lines);
    ReadLines(text);
    CarriedBreak(req, lines);
    var c := CarriedComment(req, lines);
    FileRerunCore(req, lines, c);
    ConcatLines(Concat(WrittenLines(req, lines, c)));
  }

  /** A file whose last line is complete or the marker reads as such lines. */
  lemma ReadLines(text: string)
    requires EndsComplete(Lines(text))
    ensures FileLines(Lines(text))
  {
    LinesAreLines(text);
  }

  /** The comment a run appends has a line feed at most at its end, when the
      requested comment does. */
  lemma CarriedBreak(req: Request, lines: seq<string>)
    requires FileLines(lines) && BreakAtEnd(req.comment)
    ensures BreakAtEnd(CarriedComment(req, lines))
  {
    BodyKeeps(l => BreakAtEnd(l), lines);
    CommentAfterBreak(req.comment, Body(lines));
  }

  // ----- a last line without a line feed, as written and as intended -----

  /** A file of one comment line: the pass keeps the line and appends the
      record for the request. */
  lemma CommentOnlyRun(req: Request, l: string)
    requires !(req.useMax && req.useMin) && Classify(l).Comment?
    ensures var g := KeyText(req, req.value, req.comment);
      Reconciled(req, [l]) == Ok(Outcome([l, g], true, g))
  {
    var g := KeyText(req, req.value, req.comment);
    var st := Init(req);
    assert [l][..0] == [];
    assert Fold(req, [l]) == Step(req, st, l, Comment);
    assert [] + [l] == [l];
    assert Fold(req, [l]) == Ok(st.(out := [l]));
    assert [l] + [g] == [l, g];
  }

  /** A line starting with '#' whose second character is not a space is a
      comment, not the marker. */
  lemma CommentLine(l: string)
    requires |l| >= 2 && l[0] == '#' && l[1] != ' '
    ensures Classify(l).Comment?
  {
    assert EndOfFile[1] == ' ';
    assert l[..1] == "#";
    if |EndOfFile| <= |l| {
      assert l[..|EndOfFile|][1] == l[1];
    }
  }

  /** Two pieces written one after the other. */
  lemma ConcatPair(a: string, b: string)
    ensures Concat([a, b]) == a + b
  {
    assert [b][1..] == [];
    assert Concat([b]) == b + Concat([]);
    assert [a, b][1..] == [b];
  }

  /** A file whose last line, a comment, has no line feed: the record the
      pass appends is glued to that line, so the file it leaves is one
      comment line. Running the same request on that file does not find the
      record: it appends it once more and reports a change. */
  lemma UnterminatedCommentGlued(req: Request, l: string)
    requires !(req.useMax && req.useMin) && PlainWord(req.domain) && '\n' !in req.comment
    requires |l| >= 2 && l[0] == '#' && l[1] != ' ' && '\n' !in l
    ensures var g := KeyText(req, req.value, req.comment);
      && Reconciled(req, Lines(l)) == Ok(Outcome([l, g], true, g))
      && Concat([l, g]) == l + g
      && Lines(l + g) == [l + g]
      && Reconciled(req, Lines(l + g)) == Ok(Outcome([l + g, g], true, g))
  {
    FirstRunGlued(req, l);
    SecondRunGlued(req, l);
  }

  /** The first run over the unterminated comment line. */
  lemma FirstRunGlued(req: Request, l: string)
    requires !(req.useMax && req.useMin)
    requires |l| >= 2 && l[0] == '#' && l[1] != ' ' && '\n' !in l
    ensures var g := KeyText(req, req.value, req.comment);
      Reconciled(req, Lines(l)) == Ok(Outcome([l, g], true, g)) && Concat([l, g]) == l + g
  {
    CommentLine(l);
    WholeLine(l);
    CommentOnlyRun(req, l);
    ConcatPair(l, KeyText(req, req.value, req.comment));
  }

  /** The second run over the file the first one left. */
  lemma SecondRunGlued(req: Request, l: string)
    requires !(req.useMax && req.useMin) && PlainWord(req.domain) && '\n' !in req.comment
    requires |l| >= 2 && l[0] == '#' && l[1] != ' ' && '\n' !in l
    ensures var g := KeyText(req, req.value, req.comment);
      Lines(l + g) == [l + g] && Reconciled(req, Lines(l + g)) == Ok(Outcome([l + g, g], true, g))
  {
    GluedLine(req, l);
    CommentOnlyRun(req, l + KeyText(req, req.value, req.comment));
  }

  /** The comment line with the record glued on is one comment line. */
  lemma GluedLine(req: Request, l: string)
    requires PlainWord(req.domain) && '\n' !in req.comment
    requires |l| >= 2 && l[0] == '#' && l[1] != ' ' && '\n' !in l
    ensures var f := l + KeyText(req, req.value, req.comment);
      Lines(f) == [f] && Classify(f).Comment?
  {
    var g := KeyText(req, req.value, req.comment);
    var j := Join([req.domain, TypeName(req.limitType), ItemName(req.limitItem), IntToString(req.value)], '\t');
    KeyTextJoin(req, req.value, req.comment);
    var u := l + j + req.comment;
    NoBreakAppend(l, j);
    NoBreakAppend(l + j, req.comment);
    LineOf(u);
    GlueAssoc(l, j, req.comment);
    assert (l + g)[0] == l[0] && (l + g)[1] == l[1];
    CommentLine(l + g);
  }

  /** The line, then the record's fields and comment, then its line feed. */
  lemma GlueAssoc(l: string, j: string, c: string)
    ensures l + j + c + "\n" == l + (j + c + "\n")
  {
  }

  /** One such file and request: the comment `#x` with no line feed, and a
      soft limit on open files of 5 for `u`; the appended record is
      `u<TAB>soft<TAB>nofile<TAB>5` and a line feed. */
  lemma UnterminatedExample()
    ensures var req := Request("u", Soft, Nofile, 5, false, false, "");
      && PlainWord(req.domain) && '\n' !in req.comment
      && KeyText(req, req.value, req.comment) == "u\tsoft\tnofile\t5\n"
  {
    assert IntToString(5) == "5" by {
      assert NatToString(5) == [DigitChar(5)];
    }
  }

  /** The file's text as the corrected run reads it: a last line that lacks a
      line feed, and is not the marker, is read as if it had one. The
      corrected run therefore always writes that line back completed, even
      when nothing follows it, and does not count that as a change. */
  function Completed(text: string): (r: string)
    ensures EndsComplete(Lines(text)) ==> r == text
  {
    if EndsComplete(Lines(text)) then text else text + "\n"
  }

  /** The run as evidently intended, on the file's text: each record it
      appends, and the marker, start a line of their own, and an appended
      comment is introduced by a tab and '#'. */
  function ReconciledText(req: Request, text: string): Result<Outcome, Error> {
    ReconciledFixed(req, Lines(Completed(text)))
  }

  /** Complete pieces, written one after another, end in a line feed. */
  lemma {:induction false} ConcatTerminated(ps: seq<string>)
    requires ps != [] && forall i :: 0 <= i < |ps| ==> Terminated(ps[i])
    ensures Terminated(Concat(ps))
  {
    if |ps| > 1 {
      assert forall i :: 0 <= i < |ps[1..]| ==> ps[1..][i] == ps[i + 1];
      ConcatTerminated(ps[1..]);
      assert Concat(ps) == ps[0] + Concat(ps[1..]);
    } else {
      assert ps[1..] == [];
      assert Concat(ps) == ps[0] + [];
    }
  }

  /** The lines of a text ending in a line feed end in a complete line. */
  lemma TerminatedEndsComplete(t: string)
    requires t == [] || Terminated(t)
    ensures EndsComplete(Lines(t))
  {
    if t != [] {
      LastLineTerminated(t);
    }
  }

  /** The last line of a text ending in a line feed ends in one. */
  lemma {:induction false} LastLineTerminated(t: string)
    requires Terminated(t)
    ensures Lines(t) != [] && Terminated(Lines(t)[|Lines(t)| - 1])
    decreases |t|
  {
    var l := FirstLine(t);
    FirstLineIs(t);
    var r := t[|l|..];
    assert Lines(t) == [l] + Lines(r);
    if r == [] {
      assert l == t;
    } else {
      assert r[|r| - 1] == t[|t| - 1];
      LastLineTerminated(r);
    }
  }

  /** The completed text always has a complete last line. */
  lemma CompletedEnds(text: string)
    ensures EndsComplete(Lines(Completed(text)))
  {
    if !EndsComplete(Lines(text)) {
      TerminatedEndsComplete(text + "\n");
    }
  }

  /** Introducing a comment keeps its line feed at most at its end. */
  lemma IntroduceBreak(c: string)
    requires BreakAtEnd(c)
    ensures BreakAtEnd(Introduce(c))
  {
    if !Introduced(c) {
      var r := "\t#" + c;
      forall i | 0 <= i < |r| - 1
        ensures r[i] != '\n'
      {
        if i >= 2 {
          assert r[i] == c[i - 2];
        }
      }
    }
  }

  /** The file a run leaves has a complete last line: its last piece before
      the marker is complete, or it ends in the marker. */
  lemma FileEnds(req: Request, lines: seq<string>, c: string)
    requires FirstBad(lines) < 0 && PlainWord(req.domain) && FileLines(lines)
    requires Introduced(c) && BreakAtEnd(c) && BreakAtEnd(req.comment)
    ensures EndsComplete(Lines(Concat(WrittenLines(req, lines, c))))
  {
    var w := WrittenLines(req, lines, c);
    RerunPrefix(req, lines, c);
    KeptPiecesQuiet(req, lines, c);
    WrittenFile(req, lines, c);
    if HasSentinel(lines) {
      MarkerSettled(req);
    } else {
      WrittenLinesAt(req, lines, c, 0);
      ConcatTerminated(w);
      TerminatedEndsComplete(Concat(w));
    }
  }

  /** Where the file's last line is complete, and no record is appended or
      its comment was already introduced, the corrected run is the run as
      written. */
  lemma CompletedAgrees(req: Request, text: string)
    requires EndsComplete(Lines(text))
    requires LastMatch(req, Body(Lines(text))) >= 0 || Introduced(CarriedComment(req, Lines(text)))
    ensures ReconciledText(req, text) == Reconciled(req, Lines(text))
  {
    FixedAgrees(req, Lines(text));
  }

  /** The corrected run, rerun on the file it left, finds those lines as they
      are: it rewrites nothing, appends nothing, reports no change, and leaves
      the file's text as it was; its message is a line of the key. This holds
      for every file and every requested comment with no line feed before
      its end, given a domain that is one plain field. */
  lemma FileRerunFixed(req: Request, text: string)
    requires ReconciledText(req, text).Ok? && PlainWord(req.domain) && BreakAtEnd(req.comment)
    ensures var file := Concat(ReconciledText(req, text).value.lines);
      var again := ReconciledText(req, file);
      && again.Ok? && !again.value.changed
      && again.value.lines == Lines(file) && Concat(again.value.lines) == file
      && Matches(req, again.value.message)
  {
    var lines := Lines(Completed(text));
    FixedErr(req, lines);
    FixedDescribed(req, lines);
    ReconciledOk(req, lines);
    CompletedEnds(text);
    ReadLines(Completed(text));
    CarriedBreak(req, lines);
    var c := Introduce(CarriedComment(req, lines));
    IntroduceBreak(CarriedComment(req, lines));
    FileRerunCore(req, lines, c);
    var file := Concat(WrittenLines(req, lines, c));
    FileEnds(req, lines, c);
    FixedAgrees(req, Lines(file));
    ConcatLines(file);
  }
}
