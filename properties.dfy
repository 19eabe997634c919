/**
 What the reconciliation pass does, stated line by line rather than step by
 step, and the properties of a run that follow from it: untouched lines pass
 through verbatim and in order, a matching record is kept or rewritten as
 its policy says, a missing record is appended once, the end-of-file marker
 ends the output exactly when the input had one, the two ways a run fails,
 and what happens when the same request is applied to a run's own output.
 */
module Properties {
  import opened Wrappers
  import opened Text
  import opened Limits
  import opened Reconcile

  // ----- facts about any predicate on lines -----

  /** Whether some line of `ls` satisfies `p`. */
  predicate SomeLine(p: string -> bool, ls: seq<string>) {
    ls != [] && (SomeLine(p, ls[..|ls| - 1]) || p(ls[|ls| - 1]))
  }

  lemma SomeLineSnoc(p: string -> bool, b: seq<string>, l: string)
    ensures SomeLine(p, b + [l]) == (SomeLine(p, b) || p(l))
  {
    assert (b + [l])[..|b|] == b;
  }

  /** SomeLine holds exactly when some position of `ls` satisfies `p`. */
  lemma {:induction false} SomeLineExists(p: string -> bool, ls: seq<string>)
    ensures SomeLine(p, ls) <==> exists k :: 0 <= k < |ls| && p(ls[k])
  {
    if ls != [] {
      var init := ls[..|ls| - 1];
      SomeLineExists(p, init);
      if SomeLine(p, init) {
        var k :| 0 <= k < |init| && p(init[k]);
        assert ls[k] == init[k];
      }
      if exists k :: 0 <= k < |ls| && p(ls[k]) {
        var k :| 0 <= k < |ls| && p(ls[k]);
        if k < |init| {
          assert init[k] == ls[k];
        }
      }
    }
  }

  /** The index of the last line of `ls` satisfying `p`, or -1 when none does. */
  function LastWhere(p: string -> bool, ls: seq<string>): (r: int)
    ensures -1 <= r < |ls|
  {
    if ls == [] then -1
    else if p(ls[|ls| - 1]) then |ls| - 1
    else LastWhere(p, ls[..|ls| - 1])
  }

  lemma LastWhereSnoc(p: string -> bool, b: seq<string>, l: string)
    ensures LastWhere(p, b + [l]) == if p(l) then |b| else LastWhere(p, b)
  {
    assert (b + [l])[..|b|] == b;
  }

  /** LastWhere names a line satisfying `p`. */
  lemma {:induction false} LastWhereHolds(p: string -> bool, ls: seq<string>)
    requires LastWhere(p, ls) >= 0
    ensures p(ls[LastWhere(p, ls)])
  {
    var init := ls[..|ls| - 1];
    if !p(ls[|ls| - 1]) {
      LastWhereHolds(p, init);
      assert init[LastWhere(p, init)] == ls[LastWhere(p, init)];
    }
  }

  /** No line after the one LastWhere names satisfies `p`. */
  lemma {:induction false} LastWhereIsLast(p: string -> bool, ls: seq<string>, k: nat)
    requires LastWhere(p, ls) < k < |ls|
    ensures !p(ls[k])
  {
    var init := ls[..|ls| - 1];
    if k < |ls| - 1 {
      LastWhereIsLast(p, init, k);
      assert init[k] == ls[k];
    }
  }

  /** LastWhere is -1 exactly when no line satisfies `p`. */
  lemma LastWhereNone(p: string -> bool, ls: seq<string>)
    ensures LastWhere(p, ls) < 0 <==> forall k :: 0 <= k < |ls| ==> !p(ls[k])
  {
    if LastWhere(p, ls) < 0 {
      forall k | 0 <= k < |ls|
        ensures !p(ls[k])
      {
        LastWhereIsLast(p, ls, k);
      }
    } else {
      LastWhereHolds(p, ls);
    }
  }

  // ----- the line-by-line description -----

  /** A line the pass takes for the end-of-file marker. */
  predicate IsMarker(line: string) {
    StartsWith(line, EndOfFile)
  }

  /** The lines of the input that are not end-of-file markers, in order. */
  function Body(lines: seq<string>): (r: seq<string>)
    ensures |r| <= |lines|
  {
    if lines == [] then []
    else
      var init := Body(lines[..|lines| - 1]);
      var l := lines[|lines| - 1];
      if IsMarker(l) then init else init + [l]
  }

  /** Whether some line is an end-of-file marker. */
  predicate HasSentinel(lines: seq<string>) {
    SomeLine(IsMarker, lines)
  }

  /** The trailing comments (text after the first '#') of the lines that take
      part in the comment bookkeeping, in order. */
  function OldComments(ls: seq<string>): (cs: seq<string>)
    ensures |cs| <= |ls|
  {
    if ls == [] then []
    else
      var init := OldComments(ls[..|ls| - 1]);
      var cls := Classify(ls[|ls| - 1]);
      if IsActive(cls) then init + [cls.oldComment] else init
  }

  /** The carried comment after the trailing comments `cs`, starting from the
      requested comment `c0`. */
  function CommentAfter(c0: string, cs: seq<string>): string {
    if cs == [] then c0
    else NextComment(CommentAfter(c0, cs[..|cs| - 1]), cs[|cs| - 1])
  }

  /** A record carrying the requested key. */
  predicate MatchesClass(req: Request, cls: LineClass) {
    cls.Record? && KeyIs(req, cls.domain, cls.ltype, cls.item)
  }

  predicate Matches(req: Request, line: string) {
    MatchesClass(req, Classify(line))
  }

  /** The value the policy wants for a record whose value is `actual`. */
  function Target(req: Request, actual: int): int {
    if req.useMin then Min(req.value, actual)
    else if req.useMax then Max(req.value, actual)
    else req.value
  }

  /** A matching record whose value the policy moves. */
  predicate RewritesClass(req: Request, cls: LineClass) {
    MatchesClass(req, cls) && cls.actual != req.value && Target(req, cls.actual) != cls.actual
  }

  predicate Rewrites(req: Request, line: string) {
    RewritesClass(req, Classify(line))
  }

  /** Whether some line is a record the policy moves. */
  predicate AnyRewrite(req: Request, ls: seq<string>) {
    SomeLine(l => Rewrites(req, l), ls)
  }

  /** The record for the requested key with the given value and comment. */
  function KeyText(req: Request, value: int, comment: string): string {
    RecordText(req.domain, TypeName(req.limitType), ItemName(req.limitItem), value, comment)
  }

  /** What is written for a non-marker line of class `cls`, given the
      carried comment after it. */
  function EmitClass(req: Request, comment: string, line: string, cls: LineClass): string {
    if RewritesClass(req, cls) then KeyText(req, Target(req, cls.actual), comment) else line
  }

  function Emit(req: Request, comment: string, line: string): string {
    EmitClass(req, comment, line, Classify(line))
  }

  /** What is written for the non-marker lines `body`: each line's own
      emission, in order. */
  function Expected(req: Request, body: seq<string>): (r: seq<string>)
    ensures |r| == |body|
  {
    if body == [] then []
    else Expected(req, body[..|body| - 1]) + [Emit(req, CommentAfter(req.comment, OldComments(body)), body[|body| - 1])]
  }

  /** The index of the last line carrying the key, or -1 when none does. */
  function LastMatch(req: Request, ls: seq<string>): (r: int)
    ensures -1 <= r < |ls|
  {
    LastWhere(l => Matches(req, l), ls)
  }

  /** The state the pass has reached after `lines`, described line by line. */
  ghost predicate Shaped(req: Request, lines: seq<string>, st: State) {
    var body := Body(lines);
    var last := LastMatch(req, body);
    && st.out == Expected(req, body)
    && st.hasEof == HasSentinel(lines)
    && st.newComment == CommentAfter(req.comment, OldComments(body))
    && st.changed == AnyRewrite(req, body)
    && st.found == (last >= 0)
    && st.message == (if last >= 0 then Expected(req, body)[last] else [])
    && (!st.found || (!req.useMax && !req.useMin) ==> st.newValue == req.value)
  }

  // ----- the pass agrees with the description -----

  lemma ExpectedSnoc(req: Request, b: seq<string>, l: string)
    ensures Expected(req, b + [l]) == Expected(req, b) + [Emit(req, CommentAfter(req.comment, OldComments(b + [l])), l)]
  {
    assert (b + [l])[..|b|] == b;
  }

  lemma AnyRewriteSnoc(req: Request, b: seq<string>, l: string)
    ensures AnyRewrite(req, b + [l]) == (AnyRewrite(req, b) || Rewrites(req, l))
  {
    SomeLineSnoc(l => Rewrites(req, l), b, l);
  }

  lemma HasSentinelSnoc(init: seq<string>, l: string)
    ensures HasSentinel(init + [l]) == (HasSentinel(init) || IsMarker(l))
  {
    SomeLineSnoc(IsMarker, init, l);
  }

  lemma LastMatchSnoc(req: Request, b: seq<string>, l: string)
    ensures LastMatch(req, b + [l]) == if Matches(req, l) then |b| else LastMatch(req, b)
  {
    LastWhereSnoc(l => Matches(req, l), b, l);
  }

  /** The carried comment after one more line of class `cls`. */
  function CarryClass(c: string, cls: LineClass): string {
    if IsActive(cls) then NextComment(c, cls.oldComment) else c
  }

  function CarryComment(c: string, line: string): string {
    CarryClass(c, Classify(line))
  }

  lemma CommentAfterSnoc(c0: string, b: seq<string>, l: string)
    ensures CommentAfter(c0, OldComments(b + [l])) == CarryComment(CommentAfter(c0, OldComments(b)), l)
  {
    var b' := b + [l];
    assert b'[..|b'| - 1] == b;
    var cls := Classify(l);
    if IsActive(cls) {
      var cs := OldComments(b) + [cls.oldComment];
      assert OldComments(b') == cs;
      assert cs[..|cs| - 1] == OldComments(b);
    } else {
      assert OldComments(b') == OldComments(b);
    }
  }

  /** One step on a line of class `cls` that is not a marker, in terms of
      that line alone. */
  lemma StepLine(req: Request, st0: State, l: string, cls: LineClass)
    requires !cls.Sentinel?
    requires Step(req, st0, l, cls).Ok?
    requires !st0.found || (!req.useMax && !req.useMin) ==> st0.newValue == req.value
    ensures var st := Step(req, st0, l, cls).value;
      var e := EmitClass(req, CarryClass(st0.newComment, cls), l, cls);
      && st.out == st0.out + [e]
      && st.newComment == CarryClass(st0.newComment, cls)
      && st.hasEof == st0.hasEof
      && st.changed == (st0.changed || RewritesClass(req, cls))
      && st.found == (st0.found || MatchesClass(req, cls))
      && st.message == (if MatchesClass(req, cls) then e else st0.message)
      && (!st.found || (!req.useMax && !req.useMin) ==> st.newValue == req.value)
  {
    match cls {
      case Record(d, t, i, a, oc) =>
        if KeyIs(req, d, t, i) && req.value != a {
          assert !req.useMax && !req.useMin ==> st0.newValue == req.value;
        }
      case _ =>
    }
  }

  /** One more line that is not a marker keeps the description in step. */
  lemma ShapedStepLine(req: Request, init: seq<string>, l: string, st0: State)
    requires Shaped(req, init, st0)
    requires !IsMarker(l)
    requires Step(req, st0, l, Classify(l)).Ok?
    ensures Shaped(req, init + [l], Step(req, st0, l, Classify(l)).value)
  {
    var ls := init + [l];
    assert ls[..|ls| - 1] == init;
    assert Body(ls) == Body(init) + [l];
    StepLine(req, st0, l, Classify(l));
    StepLineWritten(req, init, l, st0);
    StepLineFlags(req, init, l, st0);
    StepLineMessage(req, init, l, st0);
  }

  lemma StepLineWritten(req: Request, init: seq<string>, l: string, st0: State)
    requires Shaped(req, init, st0)
    requires !IsMarker(l)
    requires Step(req, st0, l, Classify(l)).Ok?
    ensures var st := Step(req, st0, l, Classify(l)).value;
      && st.out == Expected(req, Body(init) + [l])
      && st.newComment == CommentAfter(req.comment, OldComments(Body(init) + [l]))
  {
    StepLine(req, st0, l, Classify(l));
    ExpectedSnoc(req, Body(init), l);
    CommentAfterSnoc(req.comment, Body(init), l);
  }

  lemma StepLineFlags(req: Request, init: seq<string>, l: string, st0: State)
    requires Shaped(req, init, st0)
    requires !IsMarker(l)
    requires Step(req, st0, l, Classify(l)).Ok?
    ensures var st := Step(req, st0, l, Classify(l)).value;
      && st.hasEof == HasSentinel(init + [l])
      && st.changed == AnyRewrite(req, Body(init) + [l])
      && st.found == (LastMatch(req, Body(init) + [l]) >= 0)
      && (!st.found || (!req.useMax && !req.useMin) ==> st.newValue == req.value)
  {
    StepLine(req, st0, l, Classify(l));
    HasSentinelSnoc(init, l);
    AnyRewriteSnoc(req, Body(init), l);
    LastMatchSnoc(req, Body(init), l);
  }

  lemma StepLineMessage(req: Request, init: seq<string>, l: string, st0: State)
    requires Shaped(req, init, st0)
    requires !IsMarker(l)
    requires Step(req, st0, l, Classify(l)).Ok?
    ensures var st := Step(req, st0, l, Classify(l)).value;
      var last := LastMatch(req, Body(init) + [l]);
      st.message == (if last >= 0 then Expected(req, Body(init) + [l])[last] else [])
  {
    StepLine(req, st0, l, Classify(l));
    var b := Body(init);
    var b' := b + [l];
    assert b'[..|b'| - 1] == b;
    ExpectedSnoc(req, b, l);
    CommentAfterSnoc(req.comment, b, l);
    LastMatchSnoc(req, b, l);
  }

  /** A marker only sets the end-of-file flag. */
  lemma ShapedStepSentinel(req: Request, init: seq<string>, l: string, st0: State)
    requires Shaped(req, init, st0)
    requires IsMarker(l)
    ensures Step(req, st0, l, Classify(l)) == Ok(st0.(hasEof := true))
    ensures Shaped(req, init + [l], Step(req, st0, l, Classify(l)).value)
  {
    var ls := init + [l];
    assert ls[..|ls| - 1] == init;
    assert Body(ls) == Body(init);
    HasSentinelSnoc(init, l);
  }

  /** The pass over `lines`, when it succeeds, ends in the state the
      line-by-line description gives. */
  lemma {:induction false} FoldShaped(req: Request, lines: seq<string>)
    requires Fold(req, lines).Ok?
    ensures Shaped(req, lines, Fold(req, lines).value)
  {
    if lines == [] {
      assert Body(lines) == [];
      assert Expected(req, []) == [];
    } else {
      var init := lines[..|lines| - 1];
      var l := lines[|lines| - 1];
      FoldShaped(req, init);
      var st0 := Fold(req, init).value;
      assert Fold(req, lines) == Step(req, st0, l, Classify(l));
      ShapedStep(req, lines, st0);
    }
  }

  /** One more line of either kind keeps the description in step. */
  lemma ShapedStep(req: Request, lines: seq<string>, st0: State)
    requires lines != [] && Shaped(req, lines[..|lines| - 1], st0)
    requires Step(req, st0, lines[|lines| - 1], Classify(lines[|lines| - 1])).Ok?
    ensures Shaped(req, lines, Step(req, st0, lines[|lines| - 1], Classify(lines[|lines| - 1])).value)
  {
    var init := lines[..|lines| - 1];
    var l := lines[|lines| - 1];
    assert lines == init + [l];
    if IsMarker(l) {
      ShapedStepSentinel(req, init, l, st0);
    } else {
      ShapedStepLine(req, init, l, st0);
    }
  }

  /** Each written line is its input line's own emission. */
  lemma {:induction false} ExpectedAt(req: Request, body: seq<string>, k: nat)
    requires k < |body|
    ensures Expected(req, body)[k] == Emit(req, CommentAfter(req.comment, OldComments(body[..k + 1])), body[k])
  {
    if k < |body| - 1 {
      var init := body[..|body| - 1];
      ExpectedAt(req, init, k);
      assert init[..k + 1] == body[..k + 1];
    } else {
      assert body[..k + 1] == body;
    }
  }

  // ----- the ways a run fails -----

  /** The index of the first four-field line whose fourth field is not an
      integer, or -1 when there is none. */
  function FirstBad(lines: seq<string>): (r: int)
    ensures -1 <= r < |lines|
    ensures r >= 0 ==> Classify(lines[r]).BadNumber?
  {
    if lines == [] then -1
    else
      var f := FirstBad(lines[..|lines| - 1]);
      if f >= 0 then f
      else if Classify(lines[|lines| - 1]).BadNumber? then |lines| - 1
      else -1
  }

  /** No line before the one FirstBad names (no line at all, when it names
      none) has a fourth field that is not an integer. */
  lemma {:induction false} FirstBadIsFirst(lines: seq<string>, k: nat)
    requires k < |lines| && (FirstBad(lines) < 0 || k < FirstBad(lines))
    ensures !Classify(lines[k]).BadNumber?
  {
    var init := lines[..|lines| - 1];
    if k < |lines| - 1 {
      assert init[k] == lines[k];
      FirstBadIsFirst(init, k);
    }
  }

  /** A step fails exactly on a bad line, and names it. */
  lemma StepErr(req: Request, st: State, l: string, cls: LineClass)
    ensures Step(req, st, l, cls).Err? <==> cls.BadNumber?
    ensures Step(req, st, l, cls).Err? ==> Step(req, st, l, cls).error == BadValue(l)
  {
  }

  /** The pass fails exactly when some line is bad, naming the first one. */
  lemma {:induction false} FoldErr(req: Request, lines: seq<string>)
    ensures Fold(req, lines).Err? <==> FirstBad(lines) >= 0
    ensures Fold(req, lines).Err? ==> Fold(req, lines).error == BadValue(lines[FirstBad(lines)])
  {
    if lines != [] {
      var init := lines[..|lines| - 1];
      var l := lines[|lines| - 1];
      FoldErr(req, init);
      if Fold(req, init).Err? {
        assert lines[FirstBad(init)] == init[FirstBad(init)];
      } else {
        StepErr(req, Fold(req, init).value, l, Classify(l));
      }
    }
  }

  // ----- the whole run, described -----

  /** The comment carried to the end of the pass over `lines`. */
  function CarriedComment(req: Request, lines: seq<string>): string {
    CommentAfter(req.comment, OldComments(Body(lines)))
  }

  /** The lines written for `lines`: each non-marker line's emission, then
      the requested record with the given comment when no line carries the
      key, then one marker when the input had any. */
  function WrittenLines(req: Request, lines: seq<string>, comment: string): seq<string> {
    var body := Body(lines);
    Expected(req, body)
    + (if LastMatch(req, body) < 0 then [KeyText(req, req.value, comment)] else [])
    + (if HasSentinel(lines) then [EndOfFile] else [])
  }

  /** What a run produces, described without the loop: the conflicting
      policy and the first bad line are refused; otherwise the written lines
      carry the comment left at the end of the pass. The run changes the file
      exactly when it appends or some record is rewritten; its message is the
      last matching line as written, or the appended record. */
  function Described(req: Request, lines: seq<string>): Result<Outcome, Error> {
    if req.useMax && req.useMin then Err(ConflictingPolicy)
    else if FirstBad(lines) >= 0 then Err(BadValue(lines[FirstBad(lines)]))
    else
      var body := Body(lines);
      var last := LastMatch(req, body);
      Ok(Outcome(
        WrittenLines(req, lines, CarriedComment(req, lines)),
        last < 0 || AnyRewrite(req, body),
        if last >= 0 then Expected(req, body)[last] else KeyText(req, req.value, CarriedComment(req, lines))))
  }

  /** The run computes the description, on every input. */
  lemma ReconciledDescribed(req: Request, lines: seq<string>)
    ensures Reconciled(req, lines) == Described(req, lines)
  {
    if !(req.useMax && req.useMin) {
      FoldErr(req, lines);
      if Fold(req, lines).Ok? {
        FoldShaped(req, lines);
        var st := Fold(req, lines).value;
        var body := Body(lines);
        var last := LastMatch(req, body);
        var written := Expected(req, body);
        var o := Finish(req, st);
        assert o.lines == WrittenLines(req, lines, CarriedComment(req, lines));
        assert o.changed == (last < 0 || AnyRewrite(req, body));
        assert o.message == (if last >= 0 then written[last] else KeyText(req, req.value, CarriedComment(req, lines)));
        assert Described(req, lines) == Ok(o);
      } else {
        assert Described(req, lines) == Err(BadValue(lines[FirstBad(lines)]));
      }
    }
  }

  /** A successful run, in the terms of the description. */
  lemma ReconciledOk(req: Request, lines: seq<string>)
    requires Reconciled(req, lines).Ok?
    ensures !(req.useMax && req.useMin) && FirstBad(lines) < 0
    ensures var o := Reconciled(req, lines).value;
      var body := Body(lines);
      var last := LastMatch(req, body);
      && o.lines == WrittenLines(req, lines, CarriedComment(req, lines))
      && o.changed == (last < 0 || AnyRewrite(req, body))
      && o.message == if last >= 0 then Expected(req, body)[last] else KeyText(req, req.value, CarriedComment(req, lines))
  {
    ReconciledDescribed(req, lines);
  }

  /** The written lines are the emissions, then the appended record when no
      line carries the key, then the marker when the input had one. */
  lemma WrittenLinesAt(req: Request, lines: seq<string>, comment: string, k: nat)
    ensures var body := Body(lines);
      var w := WrittenLines(req, lines, comment);
      var n := |body| + (if LastMatch(req, body) < 0 then 1 else 0);
      && |w| == n + (if HasSentinel(lines) then 1 else 0)
      && (k < |body| ==> w[k] == Expected(req, body)[k])
      && (|body| <= k < n ==> w[k] == KeyText(req, req.value, comment))
      && (n <= k < |w| ==> w[k] == EndOfFile)
  {
    var body := Body(lines);
    var e := Expected(req, body);
    var a := if LastMatch(req, body) < 0 then [KeyText(req, req.value, comment)] else [];
    var m := if HasSentinel(lines) then [EndOfFile] else [];
    assert WrittenLines(req, lines, comment) == (e + a) + m;
    if k < |e + a| {
      assert ((e + a) + m)[k] == (e + a)[k];
    }
  }

  // ----- facts about the description -----

  /** The lines kept from the input are not markers and, when no line is
      bad, not bad lines either. */
  lemma {:induction false} BodyLine(lines: seq<string>, k: nat)
    requires k < |Body(lines)|
    ensures !IsMarker(Body(lines)[k])
    ensures FirstBad(lines) < 0 ==> !Classify(Body(lines)[k]).BadNumber?
  {
    var init := lines[..|lines| - 1];
    var l := lines[|lines| - 1];
    if k < |Body(init)| {
      BodyLine(init, k);
      if !IsMarker(l) {
        assert (Body(init) + [l])[k] == Body(init)[k];
      }
    }
  }

  /** LastMatch names a matching line, and no later line matches. */
  lemma LastMatchMatches(req: Request, ls: seq<string>)
    requires LastMatch(req, ls) >= 0
    ensures Matches(req, ls[LastMatch(req, ls)])
  {
    LastWhereHolds(l => Matches(req, l), ls);
  }

  /** LastMatch is -1 exactly when no line matches. */
  lemma LastMatchNone(req: Request, ls: seq<string>)
    ensures LastMatch(req, ls) < 0 <==> forall k :: 0 <= k < |ls| ==> !Matches(req, ls[k])
  {
    LastWhereNone(l => Matches(req, l), ls);
  }

  /** Some record is rewritten exactly when some line is one the policy moves. */
  lemma AnyRewriteExists(req: Request, ls: seq<string>)
    ensures AnyRewrite(req, ls) <==> exists k :: 0 <= k < |ls| && Rewrites(req, ls[k])
  {
    SomeLineExists(l => Rewrites(req, l), ls);
  }

  /** The input has a marker exactly when some line is one. */
  lemma HasSentinelExists(lines: seq<string>)
    ensures HasSentinel(lines) <==> exists k :: 0 <= k < |lines| && IsMarker(lines[k])
  {
    SomeLineExists(IsMarker, lines);
  }

  // ----- what a run promises -----

  /** Each non-marker line of the input is written, at its own position, as
      its emission. */
  lemma WrittenAt(req: Request, lines: seq<string>, k: nat)
    requires Reconciled(req, lines).Ok?
    requires k < |Body(lines)|
    ensures var o := Reconciled(req, lines).value;
      k < |o.lines| && o.lines[k] == Emit(req, CommentAfter(req.comment, OldComments(Body(lines)[..k + 1])), Body(lines)[k])
  {
    ReconciledOk(req, lines);
    WrittenLinesAt(req, lines, CarriedComment(req, lines), k);
    ExpectedAt(req, Body(lines), k);
  }

  /** Comments, blank lines, lines that are not four fields and records of
      other keys are written verbatim, in their input order. */
  lemma Passthrough(req: Request, lines: seq<string>, k: nat)
    requires Reconciled(req, lines).Ok?
    requires k < |Body(lines)| && !Matches(req, Body(lines)[k])
    ensures k < |Reconciled(req, lines).value.lines|
    ensures Reconciled(req, lines).value.lines[k] == Body(lines)[k]
  {
    WrittenAt(req, lines, k);
  }

  /** A record of the key that already has the requested value is written
      verbatim, whatever the policy. */
  lemma EqualValueKept(req: Request, lines: seq<string>, k: nat)
    requires Reconciled(req, lines).Ok?
    requires k < |Body(lines)| && Matches(req, Body(lines)[k]) && Classify(Body(lines)[k]).actual == req.value
    ensures k < |Reconciled(req, lines).value.lines|
    ensures Reconciled(req, lines).value.lines[k] == Body(lines)[k]
  {
    WrittenAt(req, lines, k);
  }

  /** The run reports a change exactly when no line carries the key or some
      record of the key is rewritten; a record kept as it was does not count. */
  lemma ChangedExactly(req: Request, lines: seq<string>)
    requires Reconciled(req, lines).Ok?
    ensures var body := Body(lines);
      Reconciled(req, lines).value.changed
      <==> (forall k :: 0 <= k < |body| ==> !Matches(req, body[k]))
           || (exists k :: 0 <= k < |body| && Rewrites(req, body[k]))
  {
    ReconciledOk(req, lines);
    LastMatchNone(req, Body(lines));
    AnyRewriteExists(req, Body(lines));
  }

  /** With neither flag, a record of the key with another value is replaced
      by the record with the requested value, and the run reports a change. */
  lemma PlainReplace(req: Request, lines: seq<string>, k: nat)
    requires Reconciled(req, lines).Ok? && !req.useMax && !req.useMin
    requires k < |Body(lines)| && Matches(req, Body(lines)[k]) && Classify(Body(lines)[k]).actual != req.value
    ensures var o := Reconciled(req, lines).value;
      && k < |o.lines|
      && o.lines[k] == KeyText(req, req.value, CommentAfter(req.comment, OldComments(Body(lines)[..k + 1])))
      && o.changed
  {
    WrittenAt(req, lines, k);
    ChangedExactly(req, lines);
  }

  /** With use_max, a record of the key is written with the larger of the
      requested and its own value when that differs from its own value (and
      the run reports a change); otherwise it is kept verbatim. */
  lemma MaxPolicy(req: Request, lines: seq<string>, k: nat)
    requires Reconciled(req, lines).Ok? && req.useMax
    requires k < |Body(lines)| && Matches(req, Body(lines)[k])
    ensures var o := Reconciled(req, lines).value;
      var a := Classify(Body(lines)[k]).actual;
      var v := Max(req.value, a);
      && k < |o.lines|
      && o.lines[k] == (if v != a then KeyText(req, v, CommentAfter(req.comment, OldComments(Body(lines)[..k + 1]))) else Body(lines)[k])
      && (v != a ==> o.changed)
  {
    WrittenAt(req, lines, k);
    ChangedExactly(req, lines);
  }

  /** With use_min, the same with the smaller value. */
  lemma MinPolicy(req: Request, lines: seq<string>, k: nat)
    requires Reconciled(req, lines).Ok? && req.useMin
    requires k < |Body(lines)| && Matches(req, Body(lines)[k])
    ensures var o := Reconciled(req, lines).value;
      var a := Classify(Body(lines)[k]).actual;
      var v := Min(req.value, a);
      && k < |o.lines|
      && o.lines[k] == (if v != a then KeyText(req, v, CommentAfter(req.comment, OldComments(Body(lines)[..k + 1]))) else Body(lines)[k])
      && (v != a ==> o.changed)
  {
    WrittenAt(req, lines, k);
    ChangedExactly(req, lines);
  }

  /** When no line carries the key, exactly one record with the requested
      value is appended after all written lines, and the run reports a
      change; when some line does, nothing is appended. */
  lemma AppendIffMissing(req: Request, lines: seq<string>)
    requires Reconciled(req, lines).Ok?
    ensures var o := Reconciled(req, lines).value;
      var body := Body(lines);
      var missing := forall k :: 0 <= k < |body| ==> !Matches(req, body[k]);
      var record := KeyText(req, req.value, CarriedComment(req, lines));
      && |o.lines| == |body| + (if missing then 1 else 0) + (if HasSentinel(lines) then 1 else 0)
      && (missing ==> o.lines[|body|] == record && o.changed && o.message == record)
  {
    ReconciledOk(req, lines);
    LastMatchNone(req, Body(lines));
    WrittenLinesAt(req, lines, CarriedComment(req, lines), |Body(lines)|);
  }

  /** A record the pass writes does not start with '#' when the domain does
      not, so it is never taken for a comment. */
  lemma KeyTextNotComment(req: Request, value: int, comment: string)
    requires !StartsWith(req.domain, "#")
    ensures !StartsWith(KeyText(req, value, comment), "#")
  {
    var text := KeyText(req, value, comment);
    RecordTextHead(req.domain, TypeName(req.limitType), ItemName(req.limitItem), value, comment);
    StartsWithChar(req.domain, '#');
    HeadDiffers(text, "#");
  }

  /** A record the pass writes is never taken for a marker when its domain
      does not start with the marker text: the tab after the domain is not
      part of that text. */
  lemma KeyTextNotMarker(req: Request, value: int, comment: string)
    requires !StartsWith(req.domain, EndOfFile)
    ensures !IsMarker(KeyText(req, value, comment))
  {
    RecordTextDomain(req.domain, TypeName(req.limitType), ItemName(req.limitItem), value, comment);
    PrefixThenChar(KeyText(req, value, comment), req.domain, '\t', EndOfFile);
  }

  /** What is written for a line that is not a marker is not one either. */
  lemma EmitNotMarker(req: Request, comment: string, line: string)
    requires !IsMarker(line) && !StartsWith(req.domain, EndOfFile)
    ensures !IsMarker(Emit(req, comment, line))
  {
    var cls := Classify(line);
    if RewritesClass(req, cls) {
      KeyTextNotMarker(req, Target(req, cls.actual), comment);
    }
  }

  /** Markers are dropped where they stand: the output ends with the one
      marker "# End of file" exactly when the input had a marker, and no other
      output line is one (given a domain that does not start with the marker
      text). */
  lemma SentinelLast(req: Request, lines: seq<string>)
    requires Reconciled(req, lines).Ok? && !StartsWith(req.domain, EndOfFile)
    ensures var o := Reconciled(req, lines).value;
      && (o.lines != [] && IsMarker(o.lines[|o.lines| - 1])
          <==> exists k :: 0 <= k < |lines| && IsMarker(lines[k]))
      && ((exists k :: 0 <= k < |lines| && IsMarker(lines[k])) ==> o.lines[|o.lines| - 1] == EndOfFile)
      && (forall k :: 0 <= k < |o.lines| - 1 ==> !IsMarker(o.lines[k]))
  {
    WrittenBeforeMarker(req, lines);
    MarkerAtEnd(req, lines);
    HasSentinelExists(lines);
  }

  /** A run's last written line is a marker exactly when the input had one,
      and it is then the marker text itself. */
  lemma MarkerAtEnd(req: Request, lines: seq<string>)
    requires Reconciled(req, lines).Ok? && !StartsWith(req.domain, EndOfFile)
    ensures var o := Reconciled(req, lines).value;
      && (o.lines != [] && IsMarker(o.lines[|o.lines| - 1]) <==> HasSentinel(lines))
      && (HasSentinel(lines) ==> o.lines[|o.lines| - 1] == EndOfFile)
  {
    var o := Reconciled(req, lines).value;
    var n := |Body(lines)| + (if LastMatch(req, Body(lines)) < 0 then 1 else 0);
    WrittenBeforeMarker(req, lines);
    ReconciledOk(req, lines);
    WrittenLinesAt(req, lines, CarriedComment(req, lines), n);
    LastMarker(o.lines, n, HasSentinel(lines));
  }

  /** Lines that are no markers up to `n`, followed by the marker text when
      `has` holds, end in a marker exactly when `has` holds. */
  lemma LastMarker(w: seq<string>, n: nat, has: bool)
    requires |w| == n + (if has then 1 else 0)
    requires forall k :: 0 <= k < n ==> !IsMarker(w[k])
    requires has ==> w[n] == EndOfFile
    ensures (w != [] && IsMarker(w[|w| - 1])) <==> has
    ensures has ==> w[|w| - 1] == EndOfFile
  {
    assert IsMarker(EndOfFile);
  }

  /** The lines a run writes ahead of its marker position are no markers. */
  lemma WrittenBeforeMarker(req: Request, lines: seq<string>)
    requires Reconciled(req, lines).Ok? && !StartsWith(req.domain, EndOfFile)
    ensures var o := Reconciled(req, lines).value;
      var n := |Body(lines)| + (if LastMatch(req, Body(lines)) < 0 then 1 else 0);
      && n <= |o.lines| <= n + 1
      && forall k :: 0 <= k < n ==> !IsMarker(o.lines[k])
  {
    var o := Reconciled(req, lines).value;
    var n := |Body(lines)| + (if LastMatch(req, Body(lines)) < 0 then 1 else 0);
    ReconciledOk(req, lines);
    WrittenLinesAt(req, lines, CarriedComment(req, lines), n);
    forall k | 0 <= k < n
      ensures !IsMarker(o.lines[k])
    {
      WrittenNotMarker(req, lines, k);
    }
  }

  /** No line written before the marker is a marker. */
  lemma WrittenNotMarker(req: Request, lines: seq<string>, k: nat)
    requires Reconciled(req, lines).Ok? && !StartsWith(req.domain, EndOfFile)
    requires k < |Body(lines)| + (if LastMatch(req, Body(lines)) < 0 then 1 else 0)
    ensures k < |Reconciled(req, lines).value.lines|
    ensures !IsMarker(Reconciled(req, lines).value.lines[k])
  {
    ReconciledOk(req, lines);
    var body := Body(lines);
    var c := CarriedComment(req, lines);
    WrittenLinesAt(req, lines, c, k);
    if k < |body| {
      ExpectedAt(req, body, k);
      BodyLine(lines, k);
      EmitNotMarker(req, CommentAfter(req.comment, OldComments(body[..k + 1])), body[k]);
    } else {
      KeyTextNotMarker(req, req.value, c);
    }
  }

  /** Both policy flags together are refused, before any line is read. */
  lemma ConflictRefused(req: Request, lines: seq<string>)
    ensures Reconciled(req, lines) == Err(ConflictingPolicy) <==> req.useMax && req.useMin
  {
    ReconciledDescribed(req, lines);
  }

  /** A four-field line whose fourth field is not an integer aborts the run,
      whatever its key; the error names the first such line. */
  lemma BadLineAborts(req: Request, lines: seq<string>)
    requires !(req.useMax && req.useMin)
    ensures Reconciled(req, lines).Err? <==> exists k :: 0 <= k < |lines| && Classify(lines[k]).BadNumber?
    ensures Reconciled(req, lines).Err? ==> FirstBad(lines) >= 0 && Reconciled(req, lines).error == BadValue(lines[FirstBad(lines)])
  {
    ReconciledDescribed(req, lines);
    if FirstBad(lines) < 0 {
      forall k | 0 <= k < |lines|
        ensures !Classify(lines[k]).BadNumber?
      {
        FirstBadIsFirst(lines, k);
      }
    }
  }

  // ----- running the same request again -----

  /** A comment as the pass itself builds one: empty, or introduced by a tab
      and '#'. */
  predicate Introduced(c: string) {
    c == [] || StartsWith(c, "\t#")
  }

  /** A line the request finds as it wants it: not a bad line, and not a
      record the policy would move. */
  predicate Settled(req: Request, line: string) {
    !Classify(line).BadNumber? && !Rewrites(req, line)
  }

  /** The policy is idempotent: the value it wants for a record already at
      the value it wanted is that value again. */
  lemma TargetSettles(req: Request, a: int)
    ensures Target(req, Target(req, a)) == Target(req, a)
    ensures !req.useMin && !req.useMax ==> Target(req, a) == req.value
  {
  }

  /** A record the pass writes for the request, with a comment as the pass
      builds one, reads back as a record of the key with the written value. */
  lemma KeyTextReads(req: Request, v: int, c: string)
    requires PlainWord(req.domain) && Introduced(c)
    ensures var t := KeyText(req, v, c);
      && !IsMarker(t) && Matches(req, t) && Classify(t).actual == v
  {
    TypeNamePlain(req.limitType);
    ItemNamePlain(req.limitItem);
    ClassifyRecordText(req.domain, TypeName(req.limitType), ItemName(req.limitItem), v, c);
  }

  /** What is written for a non-marker, non-bad line is settled, and carries
      the key exactly when the line does. */
  lemma EmitSettled(req: Request, c: string, line: string)
    requires PlainWord(req.domain) && !IsMarker(line) && !Classify(line).BadNumber?
    requires RewritesClass(req, Classify(line)) ==> Introduced(c)
    ensures var e := Emit(req, c, line);
      && !IsMarker(e) && Settled(req, e) && (Matches(req, e) <==> Matches(req, line))
  {
    var cls := Classify(line);
    if RewritesClass(req, cls) {
      KeyTextReads(req, Target(req, cls.actual), c);
      TargetSettles(req, cls.actual);
    }
  }

  /** The comment carried past an active line is one the pass built. */
  lemma CommentAtActive(req: Request, body: seq<string>, k: nat)
    requires k < |body| && IsActive(Classify(body[k]))
    ensures Introduced(CommentAfter(req.comment, OldComments(body[..k + 1])))
  {
    var p := body[..k + 1];
    assert p[..|p| - 1] == body[..k];
    var cs := OldComments(p);
    assert cs == OldComments(body[..k]) + [Classify(body[k]).oldComment];
  }

  /** The comment carried past any trailing comments is one the pass built
      when it started as one, or when there was at least one. */
  lemma CommentAfterIntroduced(c0: string, cs: seq<string>)
    requires Introduced(c0) || cs != []
    ensures Introduced(CommentAfter(c0, cs))
  {
  }

  /** Some active line leaves a trailing comment in the bookkeeping. */
  lemma ActiveComments(lines: seq<string>)
    requires exists k :: 0 <= k < |lines| && IsActive(Classify(lines[k]))
    ensures OldComments(Body(lines)) != []
  {
    var k :| 0 <= k < |lines| && IsActive(Classify(lines[k]));
    BodyHas(lines, k);
    var j :| 0 <= j < |Body(lines)| && Body(lines)[j] == lines[k];
    ActiveAt(Body(lines), j);
  }

  /** An active line at position `j` leaves a trailing comment. */
  lemma {:induction false} ActiveAt(b: seq<string>, j: nat)
    requires j < |b| && IsActive(Classify(b[j]))
    ensures OldComments(b) != []
  {
    var init := b[..|b| - 1];
    if j < |b| - 1 {
      assert init[j] == b[j];
      ActiveAt(init, j);
    }
  }

  /** Without a requested comment, or with some active line, the comment a
      run appends is one the pass built. */
  lemma CarriedIntroduced(req: Request, lines: seq<string>)
    requires req.comment == [] || exists k :: 0 <= k < |lines| && IsActive(Classify(lines[k]))
    ensures Introduced(CarriedComment(req, lines))
  {
    if req.comment != [] {
      ActiveComments(lines);
    }
    CommentAfterIntroduced(req.comment, OldComments(Body(lines)));
  }

  /** No line is bad exactly when FirstBad names none. */
  lemma FirstBadNone(lines: seq<string>)
    ensures (forall k :: 0 <= k < |lines| ==> !Classify(lines[k]).BadNumber?) <==> FirstBad(lines) < 0
  {
    if FirstBad(lines) < 0 {
      forall k | 0 <= k < |lines|
        ensures !Classify(lines[k]).BadNumber?
      {
        FirstBadIsFirst(lines, k);
      }
    }
  }

  /** The lines kept from the input are input lines. */
  lemma {:induction false} BodyKeeps(p: string -> bool, lines: seq<string>)
    requires forall k :: 0 <= k < |lines| ==> p(lines[k])
    ensures forall k :: 0 <= k < |Body(lines)| ==> p(Body(lines)[k])
  {
    if lines != [] {
      var init := lines[..|lines| - 1];
      BodyKeeps(p, init);
    }
  }

  /** Every input line that is not a marker is kept. */
  lemma {:induction false} BodyHas(lines: seq<string>, k: nat)
    requires k < |lines| && !IsMarker(lines[k])
    ensures exists j :: 0 <= j < |Body(lines)| && Body(lines)[j] == lines[k]
  {
    var init := lines[..|lines| - 1];
    var l := lines[|lines| - 1];
    if k < |lines| - 1 {
      assert init[k] == lines[k];
      BodyHas(init, k);
      var j :| 0 <= j < |Body(init)| && Body(init)[j] == lines[k];
      if IsMarker(l) {
        assert Body(lines) == Body(init);
      } else {
        assert Body(lines) == Body(init) + [l];
        assert Body(lines)[j] == Body(init)[j];
      }
    } else {
      assert Body(lines) == Body(init) + [l];
      assert Body(lines)[|Body(init)|] == l;
    }
  }

  /** Without markers, every line is kept. */
  lemma {:induction false} BodyUnmarked(lines: seq<string>)
    requires forall k :: 0 <= k < |lines| ==> !IsMarker(lines[k])
    ensures Body(lines) == lines
  {
    if lines != [] {
      var init := lines[..|lines| - 1];
      BodyUnmarked(init);
      assert lines == init + [lines[|lines| - 1]];
    }
  }

  /** Lines no policy moves are written as they are. */
  lemma {:induction false} ExpectedIdentity(req: Request, body: seq<string>)
    requires !AnyRewrite(req, body)
    ensures Expected(req, body) == body
  {
    if body != [] {
      var init := body[..|body| - 1];
      var l := body[|body| - 1];
      assert body == init + [l];
      AnyRewriteSnoc(req, init, l);
      ExpectedIdentity(req, init);
      ExpectedSnoc(req, init, l);
    }
  }

  lemma TakeSnoc(s: seq<string>, n: nat)
    requires n < |s|
    ensures s[..n + 1] == s[..n] + [s[n]]
  {
  }

  /** Two sequences whose lines agree position by position on `p` and `q`
      have their last such line at the same place. */
  lemma {:induction false} LastWhereSame(p: string -> bool, xs: seq<string>, q: string -> bool, ys: seq<string>)
    requires |xs| == |ys| && forall k :: 0 <= k < |xs| ==> (p(xs[k]) <==> q(ys[k]))
    ensures LastWhere(p, xs) == LastWhere(q, ys)
  {
    if xs != [] {
      LastWhereSame(p, xs[..|xs| - 1], q, ys[..|ys| - 1]);
    }
  }

  /** A run over settled lines, one of which carries the key, writes its
      non-marker lines as they are, then the marker when it had one, reports
      no change, and reports the last line of the key. */
  lemma StableRun(req: Request, ls: seq<string>)
    requires !(req.useMax && req.useMin)
    requires forall k :: 0 <= k < |ls| ==> Settled(req, ls[k])
    requires exists k :: 0 <= k < |ls| && Matches(req, ls[k])
    ensures LastMatch(req, Body(ls)) >= 0
    ensures Reconciled(req, ls)
         == Ok(Outcome(Body(ls) + (if HasSentinel(ls) then [EndOfFile] else []), false, Body(ls)[LastMatch(req, Body(ls))]))
  {
    StableParts(req, ls);
    StableOutcome(req, ls);
  }

  /** The run on lines that hold the facts StableParts gives. */
  lemma StableOutcome(req: Request, ls: seq<string>)
    requires !(req.useMax && req.useMin)
    requires FirstBad(ls) < 0
    requires Expected(req, Body(ls)) == Body(ls)
    requires !AnyRewrite(req, Body(ls))
    requires LastMatch(req, Body(ls)) >= 0
    ensures Reconciled(req, ls)
         == Ok(Outcome(Body(ls) + (if HasSentinel(ls) then [EndOfFile] else []), false, Body(ls)[LastMatch(req, Body(ls))]))
  {
    FoldErr(req, ls);
    ReconciledOk(req, ls);
    var body := Body(ls);
    var o := Reconciled(req, ls).value;
    var m: seq<string> := if HasSentinel(ls) then [EndOfFile] else [];
    assert o.lines == body + [] + m;
    assert body + [] == body;
    assert !o.changed;
    assert o.message == body[LastMatch(req, body)];
  }

  /** The facts about settled lines a run depends on. */
  lemma StableParts(req: Request, ls: seq<string>)
    requires forall k :: 0 <= k < |ls| ==> Settled(req, ls[k])
    requires exists k :: 0 <= k < |ls| && Matches(req, ls[k])
    ensures FirstBad(ls) < 0
    ensures Expected(req, Body(ls)) == Body(ls)
    ensures !AnyRewrite(req, Body(ls))
    ensures LastMatch(req, Body(ls)) >= 0
  {
    FirstBadNone(ls);
    var body := Body(ls);
    BodyKeeps(l => Settled(req, l), ls);
    AnyRewriteExists(req, body);
    ExpectedIdentity(req, body);
    var k :| 0 <= k < |ls| && Matches(req, ls[k]);
    BodyHas(ls, k);
    LastMatchNone(req, body);
  }

  /** Each line a run writes before the marker is settled and no marker; a
      written line carries the key exactly when its input line did, and the
      appended record carries it. */
  lemma RerunAt(req: Request, lines: seq<string>, c: string, k: nat)
    requires FirstBad(lines) < 0 && PlainWord(req.domain) && Introduced(c)
    requires k < |Body(lines)| + (if LastMatch(req, Body(lines)) < 0 then 1 else 0)
    ensures var w := WrittenLines(req, lines, c);
      && k < |w| && !IsMarker(w[k]) && Settled(req, w[k])
      && (k < |Body(lines)| ==> (Matches(req, w[k]) <==> Matches(req, Body(lines)[k])))
      && (k == |Body(lines)| ==> Matches(req, w[k]))
  {
    var body := Body(lines);
    WrittenLinesAt(req, lines, c, k);
    if k < |body| {
      ExpectedAt(req, body, k);
      BodyLine(lines, k);
      if IsActive(Classify(body[k])) {
        CommentAtActive(req, body, k);
      }
      EmitSettled(req, CommentAfter(req.comment, OldComments(body[..k + 1])), body[k]);
    } else {
      KeyTextReads(req, req.value, c);
    }
  }

  /** The marker a run writes is one, and the input that is only it is not bad. */
  lemma MarkerSettled(req: Request)
    ensures IsMarker(EndOfFile) && Settled(req, EndOfFile)
  {
    assert EndOfFile[..|EndOfFile|] == EndOfFile;
  }

  /** What a run writes is its lines before the marker, then the marker when
      its input had one; the second run keeps exactly the former. */
  lemma RerunPrefix(req: Request, lines: seq<string>, c: string)
    requires FirstBad(lines) < 0 && PlainWord(req.domain) && Introduced(c)
    ensures var w := WrittenLines(req, lines, c);
      var n := |Body(lines)| + (if LastMatch(req, Body(lines)) < 0 then 1 else 0);
      && n <= |w|
      && w == w[..n] + (if HasSentinel(lines) then [EndOfFile] else [])
      && Body(w) == w[..n]
      && HasSentinel(w) == HasSentinel(lines)
  {
    var w := WrittenLines(req, lines, c);
    var n := |Body(lines)| + (if LastMatch(req, Body(lines)) < 0 then 1 else 0);
    WrittenLinesAt(req, lines, c, n);
    var p := w[..n];
    forall k | 0 <= k < |p|
      ensures !IsMarker(p[k])
    {
      RerunAt(req, lines, c, k);
    }
    BodyUnmarked(p);
    HasSentinelExists(p);
    MarkerSettled(req);
    if HasSentinel(lines) {
      assert w == p + [EndOfFile];
      HasSentinelSnoc(p, EndOfFile);
    } else {
      assert w == p;
    }
  }

  /** The last line of the key among what a run writes before the marker is
      the run's own message. */
  lemma RerunMessage(req: Request, lines: seq<string>, c: string)
    requires FirstBad(lines) < 0 && PlainWord(req.domain) && Introduced(c)
    ensures var w := WrittenLines(req, lines, c);
      var body := Body(lines);
      var last := LastMatch(req, body);
      var n := |body| + (if last < 0 then 1 else 0);
      && n <= |w|
      && LastMatch(req, w[..n]) >= 0
      && w[..n][LastMatch(req, w[..n])] == if last >= 0 then Expected(req, body)[last] else KeyText(req, req.value, c)
  {
    var w := WrittenLines(req, lines, c);
    var body := Body(lines);
    var last := LastMatch(req, body);
    if last >= 0 {
      RerunMessageFound(req, lines, c);
      var p := w[..|body|];
      assert LastMatch(req, p) == last && p[last] == Expected(req, body)[last];
    } else {
      RerunMessageMissing(req, lines, c);
      var p := w[..|body| + 1];
      assert LastMatch(req, p) == |body| && p[|body|] == KeyText(req, req.value, c);
    }
  }

  lemma RerunMessageFound(req: Request, lines: seq<string>, c: string)
    requires FirstBad(lines) < 0 && PlainWord(req.domain) && Introduced(c)
    requires LastMatch(req, Body(lines)) >= 0
    ensures var w := WrittenLines(req, lines, c);
      var body := Body(lines);
      var last := LastMatch(req, body);
      && |body| <= |w|
      && LastMatch(req, w[..|body|]) == last
      && w[..|body|][last] == Expected(req, body)[last]
  {
    var w := WrittenLines(req, lines, c);
    var body := Body(lines);
    var last := LastMatch(req, body);
    WrittenLinesAt(req, lines, c, |body|);
    var p := w[..|body|];
    forall k | 0 <= k < |p|
      ensures Matches(req, p[k]) <==> Matches(req, body[k])
    {
      RerunAt(req, lines, c, k);
    }
    LastWhereSame(l => Matches(req, l), p, l => Matches(req, l), body);
    WrittenLinesAt(req, lines, c, last);
  }

  lemma RerunMessageMissing(req: Request, lines: seq<string>, c: string)
    requires FirstBad(lines) < 0 && PlainWord(req.domain) && Introduced(c)
    requires LastMatch(req, Body(lines)) < 0
    ensures var w := WrittenLines(req, lines, c);
      var n := |Body(lines)|;
      && n < |w|
      && LastMatch(req, w[..n + 1]) == n
      && w[..n + 1][n] == KeyText(req, req.value, c)
  {
    var w := WrittenLines(req, lines, c);
    var n := |Body(lines)|;
    WrittenLinesAt(req, lines, c, n);
    RerunAt(req, lines, c, n);
    TakeSnoc(w, n);
    LastMatchSnoc(req, w[..n], w[n]);
  }

  /** The run over what a run wrote, with any comment as the pass builds one
      appended, writes the same lines again and reports no change and the
      same message. */
  lemma RerunCore(req: Request, lines: seq<string>, c: string)
    requires !(req.useMax && req.useMin)
    requires FirstBad(lines) < 0 && PlainWord(req.domain) && Introduced(c)
    ensures var w := WrittenLines(req, lines, c);
      var body := Body(lines);
      var last := LastMatch(req, body);
      Reconciled(req, w)
      == Ok(Outcome(w, false, if last >= 0 then Expected(req, body)[last] else KeyText(req, req.value, c)))
  {
    var w := WrittenLines(req, lines, c);
    var n := |Body(lines)| + (if LastMatch(req, Body(lines)) < 0 then 1 else 0);
    RerunPrefix(req, lines, c);
    RerunMessage(req, lines, c);
    var p := w[..n];
    forall k | 0 <= k < |w|
      ensures Settled(req, w[k])
    {
      if k < n {
        RerunAt(req, lines, c, k);
      } else {
        WrittenLinesAt(req, lines, c, k);
        MarkerSettled(req);
      }
    }
    var j := LastMatch(req, p);
    LastMatchMatches(req, p);
    assert w[j] == p[j];
    StableRun(req, w);
  }

  /** Running the same request again on what a run wrote writes the same
      lines, reports no change, and reports the same record. This needs a
      domain that is one plain field, and, when a comment is requested, some
      line of the input that is not a marker, comment or blank line (see the
      findings). */
  lemma RerunUnchanged(req: Request, lines: seq<string>)
    requires Reconciled(req, lines).Ok? && PlainWord(req.domain)
    requires req.comment == [] || exists k :: 0 <= k < |lines| && IsActive(Classify(lines[k]))
    ensures var o := Reconciled(req, lines).value;
      Reconciled(req, o.lines) == Ok(o.(changed := false))
  {
    ReconciledOk(req, lines);
    CarriedIntroduced(req, lines);
    RerunCore(req, lines, CarriedComment(req, lines));
  }

  // ----- the appended comment, as written and as intended -----

  /** A record written with a bare comment: when the comment is a plain
      word starting with something other than a digit, its fourth field is
      the value with the comment glued on, which is not an integer. */
  lemma GluedCommentIsBad(req: Request, v: int)
    requires PlainWord(req.domain) && PlainWord(req.comment) && !IsDigit(req.comment[0])
    ensures Classify(KeyText(req, v, req.comment)).BadNumber?
  {
    var g := KeyText(req, v, req.comment);
    var d := IntToString(v);
    TypeNamePlain(req.limitType);
    ItemNamePlain(req.limitItem);
    var ws := [req.domain, TypeName(req.limitType), ItemName(req.limitItem), d + req.comment];
    RecordTextGlued(req.domain, TypeName(req.limitType), ItemName(req.limitItem), v, req.comment);
    PlainWordAppend(d, req.comment);
    FieldsOfWords(ws, []);
    NotDecimalGlued(d, req.comment);
    RecordTextHead(req.domain, TypeName(req.limitType), ItemName(req.limitItem), v, req.comment);
    StartsWithChar(req.domain, '#');
    HeadDiffers(g, "#");
    HeadDiffers(g, EndOfFile);
  }

  /** On an empty file the pass appends exactly the record for the request. */
  lemma EmptyRunAppends(req: Request)
    requires !(req.useMax && req.useMin)
    ensures var g := KeyText(req, req.value, req.comment);
      Reconciled(req, []) == Ok(Outcome([g], true, g))
  {
    var g := KeyText(req, req.value, req.comment);
    assert Fold(req, []) == Ok(Init(req));
    assert [] + [g] == [g];
  }

  /** With a comment requested and no line before the end that gets past the
      blank test, the record is appended with the bare comment glued to its
      value; running the request again on that output then fails on that
      very record. */
  lemma BareCommentBreaksRerun(req: Request)
    requires !(req.useMax && req.useMin)
    requires PlainWord(req.domain) && PlainWord(req.comment) && !IsDigit(req.comment[0])
    ensures var g := KeyText(req, req.value, req.comment);
      && Reconciled(req, []) == Ok(Outcome([g], true, g))
      && Reconciled(req, [g]) == Err(BadValue(g))
  {
    var g := KeyText(req, req.value, req.comment);
    EmptyRunAppends(req);
    GluedCommentIsBad(req, req.value);
    BadLineAborts(req, [g]);
    assert FirstBad([g]) == 0 by {
      assert [g][..0] == [];
    }
  }

  /** One such request: domain `u`, a soft limit on open files of 5, and the
      comment `x`; the appended record is `u<TAB>soft<TAB>nofile<TAB>5x`. */
  lemma BareCommentExample()
    ensures var req := Request("u", Soft, Nofile, 5, false, false, "x");
      && PlainWord(req.domain) && PlainWord(req.comment) && !IsDigit(req.comment[0])
      && KeyText(req, 5, "x") == "u\tsoft\tnofile\t5x\n"
  {
    assert IntToString(5) == "5" by {
      assert NatToString(5) == [DigitChar(5)];
    }
  }

  /** The appended comment as evidently intended: introduced by a tab and
      '#' unless the pass built it so already. */
  function Introduce(c: string): (r: string)
    ensures Introduced(r)
    ensures Introduced(c) ==> r == c
    ensures !Introduced(c) ==> |r| == |c| + 2 && r[2..] == c
  {
    if Introduced(c) then c else "\t#" + c
  }

  /** The run with the appended comment introduced as intended; every other
      part of it is the pass as written. */
  function ReconciledFixed(req: Request, lines: seq<string>): Result<Outcome, Error> {
    if req.useMax && req.useMin then Err(ConflictingPolicy)
    else match Fold(req, lines)
      case Err(e) => Err(e)
      case Ok(st) => Ok(Finish(req, st.(newComment := Introduce(st.newComment))))
  }

  /** The corrected run fails exactly when the run as written does, with
      the same error. */
  lemma FixedErr(req: Request, lines: seq<string>)
    ensures ReconciledFixed(req, lines).Ok? <==> Reconciled(req, lines).Ok?
    ensures Reconciled(req, lines).Err? ==> ReconciledFixed(req, lines) == Reconciled(req, lines)
  {
  }

  /** A successful corrected run differs from the run as written only in the
      comment of the appended record. */
  lemma FixedDescribed(req: Request, lines: seq<string>)
    requires Reconciled(req, lines).Ok?
    ensures ReconciledFixed(req, lines).Ok?
    ensures var c := Introduce(CarriedComment(req, lines));
      var o := ReconciledFixed(req, lines).value;
      var body := Body(lines);
      var last := LastMatch(req, body);
      && o.lines == WrittenLines(req, lines, c)
      && o.changed == (last < 0 || AnyRewrite(req, body))
      && o.message == if last >= 0 then Expected(req, body)[last] else KeyText(req, req.value, c)
  {
    ReconciledOk(req, lines);
    FoldErr(req, lines);
    FoldShaped(req, lines);
  }

  /** Where no record is appended, or its comment was already introduced,
      the corrected run is the run as written. */
  lemma FixedAgrees(req: Request, lines: seq<string>)
    requires LastMatch(req, Body(lines)) >= 0 || Introduced(CarriedComment(req, lines))
    ensures ReconciledFixed(req, lines) == Reconciled(req, lines)
  {
    FixedErr(req, lines);
    if Reconciled(req, lines).Ok? {
      FixedDescribed(req, lines);
      ReconciledOk(req, lines);
    }
  }

  /** With the comment introduced as intended, running the same request again
      on what the run wrote writes the same lines, reports no change and the
      same record, whatever the input. */
  lemma RerunUnchangedFixed(req: Request, lines: seq<string>)
    requires ReconciledFixed(req, lines).Ok? && PlainWord(req.domain)
    ensures var o := ReconciledFixed(req, lines).value;
      ReconciledFixed(req, o.lines) == Ok(o.(changed := false))
  {
    FixedErr(req, lines);
    FixedDescribed(req, lines);
    ReconciledOk(req, lines);
    var c := Introduce(CarriedComment(req, lines));
    RerunCore(req, lines, c);
    var w := WrittenLines(req, lines, c);
    RerunMessage(req, lines, c);
    RerunPrefix(req, lines, c);
    FixedAgrees(req, w);
  }

  // ----- the carried comment -----

  /** `c` behind `n` tab-'#' prefixes. */
  function Prefixed(n: nat, c: string): (r: string)
    ensures |r| == 2 * n + |c|
  {
    if n == 0 then c else "\t#" + Prefixed(n - 1, c)
  }

  /** A requested comment gains one tab-'#' prefix per active line. */
  lemma {:induction false} CommentAfterGiven(c0: string, cs: seq<string>)
    requires c0 != []
    ensures CommentAfter(c0, cs) == Prefixed(|cs|, c0)
  {
    if cs != [] {
      CommentAfterGiven(c0, cs[..|cs| - 1]);
    }
  }

  /** Without a requested comment and without trailing comments, none is
      carried. */
  lemma {:induction false} CommentAfterNone(cs: seq<string>)
    requires forall i :: 0 <= i < |cs| ==> cs[i] == []
    ensures CommentAfter([], cs) == []
  {
    if cs != [] {
      CommentAfterNone(cs[..|cs| - 1]);
    }
  }

  /** Without a requested comment, the first non-empty trailing comment is
      taken, and gains one tab-'#' prefix for its own line and each later
      active line. */
  lemma {:induction false} CommentAfterFirst(cs: seq<string>, j: nat)
    requires j < |cs| && cs[j] != [] && forall i :: 0 <= i < j ==> cs[i] == []
    ensures CommentAfter([], cs) == Prefixed(|cs| - j, cs[j])
  {
    var init := cs[..|cs| - 1];
    if j == |cs| - 1 {
      CommentAfterNone(init);
      assert Prefixed(1, cs[j]) == "\t#" + cs[j];
    } else {
      CommentAfterFirst(init, j);
    }
  }
}
