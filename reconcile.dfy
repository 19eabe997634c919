/**
 The reconciliation pass of the limits-file editor: one forward pass over the
 lines of the file that copies every line it does not own, rewrites the record
 whose key is requested when the policy asks for a new value, appends the
 record when no line carries the key, and moves the end-of-file marker to the
 end.

 `Classify`, `Step`, `Fold` and `Reconciled` are the specification of the pass;
 the method `Reconcile` is the pass itself, written as the loop it is, and is
 proved to compute `Reconciled`.
 */
module Reconcile {
  import opened Wrappers
  import opened Text
  import opened Limits

  /** The marker a limits file conventionally ends with. */
  const EndOfFile: string := "# End of file"

  /** What the pass makes of one line, tested in this order: a line starting
      with the end-of-file marker, a line starting with '#', a whitespace-only
      line, a line whose body (normalised, cut at the first '#') is not exactly
      four space-separated fields, a four-field line whose fourth field is not
      an integer, and a record. `oldComment` is the text after the first '#'
      of the raw line, terminator included. */
  datatype LineClass =
    | Sentinel
    | Comment
    | Blank
    | Malformed(oldComment: string)
    | BadNumber(oldComment: string)
    | Record(domain: string, ltype: string, item: string, actual: int, oldComment: string)

  /** The fields of a line's body, as the pass splits it. */
  function Fields(line: string): seq<string> {
    Split(RStrip(CutAtHash(Normalize(line))), ' ')
  }

  function Classify(line: string): (c: LineClass)
    ensures c.Sentinel? <==> StartsWith(line, EndOfFile)
    ensures c.Comment? <==> StartsWith(line, "#") && !StartsWith(line, EndOfFile)
    ensures c.Blank? <==> !StartsWith(line, "#") && forall i :: 0 <= i < |line| ==> IsSpace(line[i])
  {
    if StartsWith(line, EndOfFile) then Sentinel
    else if StartsWith(line, "#") then Comment
    else if Normalize(line) == [] then Blank
    else
      var fields := Fields(line);
      if |fields| != 4 then Malformed(AfterHash(line))
      else match ParseInt(fields[3])
        case None => BadNumber(AfterHash(line))
        case Some(a) => Record(fields[0], fields[1], fields[2], a, AfterHash(line))
  }

  /** The lines past the comment and blank tests: fewer or more than four
      fields make a malformed line, four fields whose last is no integer a
      bad number, and four fields with an integer last a record of them; each
      keeps the text after its first '#' as its trailing comment. */
  lemma ClassifyActive(line: string)
    ensures var c := Classify(line);
      var past := !StartsWith(line, "#") && Normalize(line) != [];
      var f := Fields(line);
      && (c.Malformed? <==> past && |f| != 4)
      && (c.BadNumber? <==> past && |f| == 4 && ParseInt(f[3]).None?)
      && (c.Record? <==> past && |f| == 4 && ParseInt(f[3]).Some?)
      && (c.Record? ==> c == Record(f[0], f[1], f[2], ParseInt(f[3]).value, AfterHash(line)))
      && (c.Malformed? || c.BadNumber? ==> c.oldComment == AfterHash(line))
  {
    if StartsWith(line, EndOfFile) {
      assert line[..1] == EndOfFile[..1];
    }
  }

  /** Whether a line takes part in the comment bookkeeping: every line that
      gets past the whitespace-only test. */
  predicate IsActive(c: LineClass) {
    c.Malformed? || c.BadNumber? || c.Record?
  }

  /** The loop-carried comment after one more active line whose own trailing
      comment is `oldComment`: an empty comment is first replaced by the
      line's, and a non-empty one then gains one more tab-'#' prefix. */
  function NextComment(comment: string, oldComment: string): (r: string)
    ensures r == [] <==> comment == [] && oldComment == []
    ensures r != [] ==> StartsWith(r, "\t#")
    ensures comment != [] ==> r == "\t#" + comment
  {
    var c := if comment == [] then oldComment else comment;
    if c != [] then "\t#" + c else c
  }

  /** The text of a record written by the pass: the four fields joined by
      tabs, then the comment, then a line feed. */
  function RecordText(domain: string, ltype: string, item: string, value: int, comment: string): string {
    domain + "\t" + ltype + "\t" + item + "\t" + IntToString(value) + comment + "\n"
  }

  function Max(a: int, b: int): int { if a >= b then a else b }

  function Min(a: int, b: int): int { if a <= b then a else b }

  /** The running state of the pass. */
  datatype State = State(
    out: seq<string>,
    found: bool,
    hasEof: bool,
    newValue: int,
    newComment: string,
    changed: bool,
    message: string)

  function Init(req: Request): State {
    State([], false, false, req.value, req.comment, false, "")
  }

  predicate KeyIs(req: Request, domain: string, ltype: string, item: string) {
    domain == req.domain && ltype == TypeName(req.limitType) && item == ItemName(req.limitItem)
  }

  /** One iteration of the pass on `line`, once it is classified as `cls`. */
  function Step(req: Request, st: State, line: string, cls: LineClass): Result<State, Error> {
    match cls
    case Sentinel => Ok(st.(hasEof := true))
    case Comment => Ok(st.(out := st.out + [line]))
    case Blank => Ok(st.(out := st.out + [line]))
    case Malformed(oc) => Ok(st.(out := st.out + [line], newComment := NextComment(st.newComment, oc)))
    case BadNumber(_) => Err(BadValue(line))
    case Record(d, t, i, a, oc) =>
      var c := NextComment(st.newComment, oc);
      if !KeyIs(req, d, t, i) then Ok(st.(out := st.out + [line], newComment := c))
      else if req.value == a then
        Ok(st.(out := st.out + [line], newComment := c, found := true, message := line))
      else
        var v1 := if req.useMax then Max(req.value, a) else st.newValue;
        var v := if req.useMin then Min(req.value, a) else v1;
        if v != a then
          var text := RecordText(req.domain, TypeName(req.limitType), ItemName(req.limitItem), v, c);
          Ok(st.(out := st.out + [text], newComment := c, found := true, newValue := v,
                 changed := true, message := text))
        else
          Ok(st.(out := st.out + [line], newComment := c, found := true, newValue := v, message := line))
  }

  /** The pass over all of `lines`; the first line that fails to parse aborts
      it. */
  function Fold(req: Request, lines: seq<string>): Result<State, Error> {
    if lines == [] then Ok(Init(req))
    else match Fold(req, lines[..|lines| - 1])
      case Err(e) => Err(e)
      case Ok(st) => Step(req, st, lines[|lines| - 1], Classify(lines[|lines| - 1]))
  }

  /** What happens after the last line: the record is appended when no line
      carried the key, then the marker is written when any line was one. */
  function Finish(req: Request, st: State): Outcome {
    var text := RecordText(req.domain, TypeName(req.limitType), ItemName(req.limitItem), st.newValue, st.newComment);
    var out := if st.found then st.out else st.out + [text];
    var changed := st.changed || !st.found;
    var message := if st.found then st.message else text;
    Outcome(if st.hasEof then out + [EndOfFile] else out, changed, message)
  }

  /** The whole run: the policy check, then the pass, then the ending. */
  function Reconciled(req: Request, lines: seq<string>): Result<Outcome, Error> {
    if req.useMax && req.useMin then Err(ConflictingPolicy)
    else match Fold(req, lines)
      case Err(e) => Err(e)
      case Ok(st) => Ok(Finish(req, st))
  }

  /** The pass over one more line is one more step. */
  lemma FoldSnoc(req: Request, lines: seq<string>, i: nat)
    requires i < |lines| && Fold(req, lines[..i]).Ok?
    ensures Fold(req, lines[..i + 1]) == Step(req, Fold(req, lines[..i]).value, lines[i], Classify(lines[i]))
  {
    assert lines[..i + 1][..i] == lines[..i];
  }

  /** Once the pass has failed on a prefix, it fails with the same error on
      the whole input. */
  lemma {:induction false} FoldErrSticks(req: Request, lines: seq<string>, k: nat)
    requires k <= |lines|
    requires Fold(req, lines[..k]).Err?
    ensures Fold(req, lines) == Fold(req, lines[..k])
    decreases |lines| - k
  {
    if k < |lines| {
      assert lines[..k + 1][..k] == lines[..k];
      FoldErrSticks(req, lines, k + 1);
    } else {
      assert lines[..k] == lines;
    }
  }

  /** The body of the loop: what the pass does with one line of class `cls`,
      on the pass's running variables. */
  method Visit(req: Request, st: State, line: string, cls: LineClass) returns (r: Result<State, Error>)
    ensures r == Step(req, st, line, cls)
  {
    var nf, found, hasEof, newValue, newComment, changed, message := st.out, st.found, st.hasEof, st.newValue, st.newComment, st.changed, st.message;
    match cls {
    case Sentinel =>
      hasEof := true;
    case Comment =>
      nf := nf + [line];
    case Blank =>
      nf := nf + [line];
    case Malformed(oldComment) =>
      newComment := NextComment(newComment, oldComment);
      nf := nf + [line];
    case BadNumber(_) =>
      return Err(BadValue(line));
    case Record(domain, ltype, item, actual, oldComment) =>
      newComment := NextComment(newComment, oldComment);
      if !KeyIs(req, domain, ltype, item) {
        nf := nf + [line];
      } else {
        found := true;
        if req.value == actual {
          message := line;
          nf := nf + [line];
        } else {
          if req.useMax {
            newValue := Max(req.value, actual);
          }
          if req.useMin {
            newValue := Min(req.value, actual);
          }
          if newValue != actual {
            changed := true;
            var newLimit := RecordText(req.domain, TypeName(req.limitType), ItemName(req.limitItem), newValue, newComment);
            message := newLimit;
            nf := nf + [newLimit];
          } else {
            message := line;
            nf := nf + [line];
          }
        }
      }
    }
    r := Ok(State(nf, found, hasEof, newValue, newComment, changed, message));
  }

  /** The run itself: the policy check, then one loop over the lines of the
      file, then the ending. */
  method Reconcile(req: Request, lines: seq<string>) returns (r: Result<Outcome, Error>)
    ensures r == Reconciled(req, lines)
  {
    if req.useMax && req.useMin {
      return Err(ConflictingPolicy);
    }
    var st := Init(req);
    assert lines[..0] == [];
    for i := 0 to |lines|
      invariant Fold(req, lines[..i]) == Ok(st)
    {
      FoldSnoc(req, lines, i);
      var res := Visit(req, st, lines[i], Classify(lines[i]));
      if res.Err? {
        FoldErrSticks(req, lines, i + 1);
        return Err(res.error);
      }
      st := res.value;
    }
    assert lines[..|lines|] == lines;
    var nf, changed, message := st.out, st.changed, st.message;
    if !st.found {
      changed := true;
      var newLimit := RecordText(req.domain, TypeName(req.limitType), ItemName(req.limitItem), st.newValue, st.newComment);
      message := newLimit;
      nf := nf + [newLimit];
    }
    if st.hasEof {
      nf := nf + [EndOfFile];
    }
    r := Ok(Outcome(nf, changed, message));
  }

  // ----- reading back a written record -----

  /** Four plain words joined by tabs, then nothing or a comment introduced
      by a tab and '#', then a line feed, read back as those four words. */
  lemma FieldsOfWords(ws: seq<string>, c: string)
    requires |ws| == 4 && forall k :: 0 <= k < |ws| ==> PlainWord(ws[k])
    requires c == [] || StartsWith(c, "\t#")
    ensures Normalize(Join(ws, '\t') + c + "\n") != []
    ensures Fields(Join(ws, '\t') + c + "\n") == ws
  {
    var tail := c + "\n";
    assert Join(ws, '\t') + c + "\n" == Join(ws, '\t') + tail;
    if c != [] {
      assert c[..2] == "\t#";
      assert tail[0] == '\t' && tail[1] == '#';
    } else {
      assert tail == "\n";
    }
    FieldsOfTail(ws, tail);
  }

  lemma FieldsOfTail(ws: seq<string>, tail: string)
    requires |ws| == 4 && forall k :: 0 <= k < |ws| ==> PlainWord(ws[k])
    requires tail == "\n" || (|tail| >= 2 && tail[0] == '\t' && tail[1] == '#')
    ensures Normalize(Join(ws, '\t') + tail) != []
    ensures Fields(Join(ws, '\t') + tail) == ws
  {
    var J := Join(ws, '\t');
    var S := Join(ws, ' ');
    JoinFirst(ws, '\t');
    JoinFirst(ws, ' ');
    assert !IsSpace(J[|J| - 1]) && !IsSpace(S[|S| - 1]) && !IsSpace(S[0]) by {
      assert ws[3][|ws[3]| - 1] in ws[3];
      assert !IsSpace(ws[3][|ws[3]| - 1]);
      assert !IsSpace(ws[0][0]);
    }
    CollapseJoin(ws);
    assert forall k :: 0 <= k < |ws| ==> ' ' !in ws[k];
    JoinAvoids(ws, ' ', '#');
    SplitJoin(ws, ' ');
    ReadBackTail(J, S, tail);
  }

  /** The normalised body of a tab-joined line followed by its tail, cut at
      '#' and right-stripped, is the space-joined words. */
  lemma ReadBackTail(J: string, S: string, tail: string)
    requires J != [] && S != [] && !IsSpace(J[|J| - 1]) && !IsSpace(S[0]) && !IsSpace(S[|S| - 1])
    requires Collapse(J) == S && '#' !in S
    requires tail == "\n" || (|tail| >= 2 && tail[0] == '\t' && tail[1] == '#')
    ensures Normalize(J + tail) != []
    ensures RStrip(CutAtHash(Normalize(J + tail))) == S
  {
    CollapseAppend(J, tail);
    if tail == "\n" {
      ReadBackNewline(S);
    } else {
      ReadBackComment(S, tail);
    }
  }

  lemma ReadBackNewline(S: string)
    requires S != [] && !IsSpace(S[0]) && !IsSpace(S[|S| - 1]) && '#' !in S
    ensures RStrip(LStrip(S + Collapse("\n"))) == S
    ensures RStrip(CutAtHash(RStrip(LStrip(S + Collapse("\n"))))) == S
  {
    assert Collapse("\n") == " ";
    LStripNoLead(S + " ");
    RStripTrail(S, " ");
    CutAtHashNone(S);
    RStripTrail(S, []);
    assert S + [] == S;
  }

  lemma ReadBackComment(S: string, tail: string)
    requires S != [] && !IsSpace(S[0]) && !IsSpace(S[|S| - 1]) && '#' !in S
    requires |tail| >= 2 && tail[0] == '\t' && tail[1] == '#'
    ensures RStrip(LStrip(S + Collapse(tail))) != []
    ensures RStrip(CutAtHash(RStrip(LStrip(S + Collapse(tail))))) == S
  {
    var t2 := tail[1..];
    assert Collapse(tail) == [' '] + Collapse(t2);
    CollapseHead(t2);
    var C2 := Collapse(t2);
    var U := (S + [' ']) + C2;
    assert S + Collapse(tail) == U;
    LStripNoLead(U);
    RStripAppend(S + [' '], C2);
    RStripHead(C2);
    var R2 := RStrip(C2);
    assert RStrip(U) == (S + [' ']) + R2;
    assert '#' !in S + [' '];
    CutAtHashAppend(S + [' '], R2);
    assert CutAtHash(R2) == [];
    assert (S + [' ']) + [] == S + [' '];
    RStripTrail(S, [' ']);
  }

  /** The text of a record is its four fields joined by tabs, then the
      comment and a line feed. */
  lemma RecordTextJoin(domain: string, ltype: string, item: string, value: int, comment: string)
    ensures RecordText(domain, ltype, item, value, comment)
         == Join([domain, ltype, item, IntToString(value)], '\t') + comment + "\n"
  {
    JoinFour(domain, ltype, item, IntToString(value), '\t');
  }

  /** The text of a record is also its domain, type, item and the value with
      the comment glued on, joined by tabs, then a line feed. */
  lemma RecordTextGlued(domain: string, ltype: string, item: string, value: int, comment: string)
    ensures RecordText(domain, ltype, item, value, comment)
         == Join([domain, ltype, item, IntToString(value) + comment], '\t') + [] + "\n"
  {
    var v := IntToString(value);
    JoinFour(domain, ltype, item, v + comment, '\t');
    var x := domain + "\t" + ltype + "\t" + item + "\t";
    assert x + v + comment == x + (v + comment);
    assert x + (v + comment) + [] == x + (v + comment);
  }

  /** The first character of a record the pass writes: its domain's, or the
      tab when the domain is empty. */
  lemma RecordTextHead(domain: string, ltype: string, item: string, value: int, comment: string)
    ensures var text := RecordText(domain, ltype, item, value, comment);
      text != [] && text[0] == if domain == [] then '\t' else domain[0]
  {
  }

  /** A record the pass writes is its domain followed by a tab. */
  lemma RecordTextDomain(domain: string, ltype: string, item: string, value: int, comment: string)
    ensures var text := RecordText(domain, ltype, item, value, comment);
      |domain| < |text| && text[..|domain|] == domain && text[|domain|] == '\t'
  {
    var ws := [domain, ltype, item, IntToString(value)];
    var tail := Join(ws[1..], '\t');
    RecordTextJoin(domain, ltype, item, value, comment);
    assert Join(ws, '\t') == domain + ['\t'] + tail;
    StartsTabbed(domain, tail + comment + "\n");
    assert RecordText(domain, ltype, item, value, comment) == domain + ['\t'] + (tail + comment + "\n");
  }

  /** A record the pass writes, with plain-word fields and a comment it
      builds itself (empty, or introduced by a tab and '#'), reads back as a
      record with the same key and value. */
  lemma ClassifyRecordText(domain: string, ltype: string, item: string, value: int, comment: string)
    requires PlainWord(domain) && PlainWord(ltype) && PlainWord(item)
    requires comment == [] || StartsWith(comment, "\t#")
    ensures var text := RecordText(domain, ltype, item, value, comment);
      Classify(text) == Record(domain, ltype, item, value, AfterHash(text))
  {
    var text := RecordText(domain, ltype, item, value, comment);
    var ws := [domain, ltype, item, IntToString(value)];
    RecordTextJoin(domain, ltype, item, value, comment);
    FieldsOfWords(ws, comment);
    RecordTextHead(domain, ltype, item, value, comment);
    assert domain[0] in domain;
    HeadDiffers(text, "#");
    HeadDiffers(text, EndOfFile);
    ClassifyFields(text, ws, value);
  }

  /** A line that is no comment and no blank, and whose fields are four
      words the last of which reads as `value`, is a record of them. */
  lemma ClassifyFields(line: string, ws: seq<string>, value: int)
    requires !StartsWith(line, "#") && !StartsWith(line, EndOfFile) && Normalize(line) != []
    requires Fields(line) == ws && |ws| == 4 && ParseInt(ws[3]) == Some(value)
    ensures Classify(line) == Record(ws[0], ws[1], ws[2], value, AfterHash(line))
  {
  }
}

