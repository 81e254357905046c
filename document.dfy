/** translateHTML and writeScript: the rewrite of a whole document, and the
    script block that carries the resolved values in script mode. */
module Document {
  import opened Wrappers
  import opened Bytes
  import opened Oracles
  import opened ImgTag

  const CLOSE_HTML: Bytes := [60, 47, 104, 116, 109, 108, 62]  // "</html>"
  const SCRIPT_OPEN: Bytes := [10, 60, 115, 99, 114, 105, 112, 116, 62, 10]  // "\n<script>\n"
  const SCRIPT_CLOSE: Bytes := [60, 47, 115, 99, 114, 105, 112, 116, 62, 10]  // "</script>\n"
  const STMT_OPEN: Bytes := [100, 111, 99, 117, 109, 101, 110, 116, 46, 103, 101, 116, 69, 108, 101, 109, 101, 110, 116, 66, 121, 73, 100, 40, 34]  // "document.getElementById(\""
  const STMT_MID: Bytes := [34, 41, 46, 115, 114, 99, 61, 34]  // "\").src=\""
  const STMT_CLOSE: Bytes := [34, 59, 10]  // "\";\n"

  /** An element id and the value its `src` gets from the script. */
  datatype IdValuePair = IdValuePair(id: Bytes, value: Bytes)

  // ---------------------------------------------------------------------
  // writeScript

  /** The statement of the script block for one pair. */
  function Statement(p: IdValuePair): Bytes
  {
    STMT_OPEN + p.id + STMT_MID + p.value + STMT_CLOSE
  }

  /** One statement per pair, in order. */
  function Statements(ps: seq<IdValuePair>): Bytes
  {
    if ps == [] then [] else Statements(ps[..|ps| - 1]) + Statement(ps[|ps| - 1])
  }

  function ScriptBlock(ps: seq<IdValuePair>): Bytes
  {
    SCRIPT_OPEN + Statements(ps) + SCRIPT_CLOSE
  }

  /** The statements of a list of pairs are those of its parts, one after the other. */
  lemma {:induction false} StatementsAppend(a: seq<IdValuePair>, b: seq<IdValuePair>)
    ensures Statements(a + b) == Statements(a) + Statements(b)
    decreases |b|
  {
    if b == [] {
      assert a + b == a;
    } else {
      var b' := b[..|b| - 1];
      assert (a + b)[..|a + b| - 1] == a + b';
      assert (a + b)[|a + b| - 1] == b[|b| - 1];
      StatementsAppend(a, b');
      AppendAssoc(Statements(a), Statements(b'), Statement(b[|b| - 1]));
    }
  }

  /** Since a slot's pairs are never cleared, the block written for a later
      document on the same slot repeats every statement of the earlier ones
      before its own. */
  lemma ScriptRepeatsEarlierPairs(earlier: seq<IdValuePair>, own: seq<IdValuePair>)
    ensures ScriptBlock(earlier + own) == SCRIPT_OPEN + Statements(earlier) + Statements(own) + SCRIPT_CLOSE
  {
    StatementsAppend(earlier, own);
    AppendAssoc(SCRIPT_OPEN, Statements(earlier), Statements(own));
  }

  /** writeScript: the opening marker, one statement per pair, the closing marker. */
  method WriteScript(outbuf: Bytes, pairs: seq<IdValuePair>) returns (out: Bytes)
    ensures out == outbuf + ScriptBlock(pairs)
  {
    out := outbuf + SCRIPT_OPEN;
    for k := 0 to |pairs|
      invariant out == outbuf + SCRIPT_OPEN + Statements(pairs[..k])
    {
      var pair := pairs[k];
      ghost var before := out;
      out := out + STMT_OPEN;
      out := out + pair.id;
      out := out + STMT_MID;
      out := out + pair.value;
      out := out + STMT_CLOSE;
      assert out == before + Statement(pair) by {
        AppendAssoc(before, STMT_OPEN, pair.id);
        AppendAssoc(before, STMT_OPEN + pair.id, STMT_MID);
        AppendAssoc(before, STMT_OPEN + pair.id + STMT_MID, pair.value);
        AppendAssoc(before, STMT_OPEN + pair.id + STMT_MID + pair.value, STMT_CLOSE);
      }
      assert pairs[..k + 1][..k] == pairs[..k];
      AppendAssoc(outbuf + SCRIPT_OPEN, Statements(pairs[..k]), Statement(pair));
    }
    assert pairs[..|pairs|] == pairs;
    out := out + SCRIPT_CLOSE;
    AppendAssoc(outbuf, SCRIPT_OPEN, Statements(pairs));
    AppendAssoc(outbuf, SCRIPT_OPEN + Statements(pairs), SCRIPT_CLOSE);
  }

  // ---------------------------------------------------------------------
  // The matches of one document

  /** Where copying resumes before match `k`: the end of the previous match, or 0. */
  function PrevEnd(ms: seq<seq<int>>, k: nat): int
    requires k <= |ms| && forall i :: 0 <= i < |ms| ==> |ms[i]| == INTS_PER_IMG
  {
    if k == 0 then 0 else ms[k - 1][1]
  }

  /** The matches lie inside the document, in order, without overlapping.
      (The trigger keeps the solver from walking from one match to the
      previous one without end.) */
  predicate Ordered(inbuf: Bytes, ms: seq<seq<int>>)
  {
    && (forall i :: 0 <= i < |ms| ==> |ms[i]| == INTS_PER_IMG && 0 <= ms[i][0] <= ms[i][1] <= |inbuf|)
    && (forall i {:trigger PrevEnd(ms, i)} :: 0 <= i < |ms| ==> PrevEnd(ms, i) <= ms[i][0])
  }

  /** What the scanner guarantees of all matches: they are ordered, and the
      attribute slots of each are valid. */
  predicate WellFormedMatches(inbuf: Bytes, ms: seq<seq<int>>)
  {
    Ordered(inbuf, ms) && forall i {:trigger ValidSlots(inbuf, ms[i])} :: 0 <= i < |ms| ==> ValidSlots(inbuf, ms[i])
  }

  lemma PrevEndInRange(inbuf: Bytes, ms: seq<seq<int>>, k: nat)
    requires Ordered(inbuf, ms) && k <= |ms|
    ensures 0 <= PrevEnd(ms, k) <= |inbuf|
    ensures k < |ms| ==> PrevEnd(ms, k) <= ms[k][0]
  {
  }

  /** The output for the first `k` matches, given each tag's rewrite:
      every tag is preceded by the bytes since the previous one. */
  function Weave(inbuf: Bytes, ms: seq<seq<int>>, outs: seq<Bytes>, k: nat): Bytes
    requires Ordered(inbuf, ms) && |outs| == |ms| && k <= |ms|
  {
    if k == 0 then []
    else
      PrevEndInRange(inbuf, ms, k - 1);
      Weave(inbuf, ms, outs, k - 1) + inbuf[PrevEnd(ms, k - 1)..ms[k - 1][0]] + outs[k - 1]
  }

  /** The rewrite of every matched tag, in order. */
  function TagOuts(env: Env, inbuf: Bytes, ms: seq<seq<int>>, curDir: Bytes, moveToScript: bool): (outs: seq<Bytes>)
    requires WellFormedMatches(inbuf, ms)
    ensures |outs| == |ms|
    ensures forall i {:trigger outs[i]} :: 0 <= i < |ms| ==> ValidSlots(inbuf, ms[i]) && outs[i] == TagOut(env, inbuf, ms[i], curDir, moveToScript)
  {
    seq(|ms|, i requires 0 <= i < |ms| && ValidSlots(inbuf, ms[i]) => TagOut(env, inbuf, ms[i], curDir, moveToScript))
  }

  /** The output for the first `k` matches. */
  function Body(env: Env, inbuf: Bytes, ms: seq<seq<int>>, k: nat, curDir: Bytes, moveToScript: bool): Bytes
    requires WellFormedMatches(inbuf, ms) && k <= |ms|
  {
    Weave(inbuf, ms, TagOuts(env, inbuf, ms, curDir, moveToScript), k)
  }

  /** What translateImgTag hands back for one tag besides its rewrite:
      its error, and the pair translateHTML records for it in script mode. */
  datatype TagResult = TagResult(err: Option<Error>, pair: IdValuePair)

  /** The result of every matched tag, in order. */
  function TagResults(env: Env, inbuf: Bytes, ms: seq<seq<int>>, curDir: Bytes, moveToScript: bool): (rs: seq<TagResult>)
    requires WellFormedMatches(inbuf, ms)
    ensures |rs| == |ms|
    ensures forall i {:trigger rs[i]} :: 0 <= i < |ms| ==> ValidSlots(inbuf, ms[i]) && rs[i] == TagResult(TagErr(env, inbuf, ms[i], curDir),
      IdValuePair(TagId(inbuf, ms[i]), TagTranslated(env, inbuf, ms[i], curDir, moveToScript)))
  {
    seq(|ms|, i requires 0 <= i < |ms| && ValidSlots(inbuf, ms[i]) =>
      TagResult(TagErr(env, inbuf, ms[i], curDir),
                IdValuePair(TagId(inbuf, ms[i]), TagTranslated(env, inbuf, ms[i], curDir, moveToScript))))
  }

  /** The errors of the first `k` results, in order. */
  function ErrorsOf(rs: seq<TagResult>, k: nat): seq<Error>
    requires k <= |rs|
  {
    if k == 0 then []
    else ErrorsOf(rs, k - 1) + (if rs[k - 1].err.Some? then [rs[k - 1].err.value] else [])
  }

  /** The pairs of the first `k` results: in script mode, one for every tag
      that returned no error; none otherwise. */
  function PairsOf(rs: seq<TagResult>, k: nat, moveToScript: bool): seq<IdValuePair>
    requires k <= |rs|
  {
    if k == 0 || !moveToScript then []
    else PairsOf(rs, k - 1, moveToScript) + (if rs[k - 1].err.None? then [rs[k - 1].pair] else [])
  }

  /** The errors recorded for the first `k` matches. */
  function TagErrors(env: Env, inbuf: Bytes, ms: seq<seq<int>>, k: nat, curDir: Bytes, moveToScript: bool): seq<Error>
    requires WellFormedMatches(inbuf, ms) && k <= |ms|
  {
    ErrorsOf(TagResults(env, inbuf, ms, curDir, moveToScript), k)
  }

  /** The pairs recorded for the first `k` matches. */
  function TagPairs(env: Env, inbuf: Bytes, ms: seq<seq<int>>, k: nat, curDir: Bytes, moveToScript: bool): seq<IdValuePair>
    requires WellFormedMatches(inbuf, ms) && k <= |ms|
  {
    PairsOf(TagResults(env, inbuf, ms, curDir, moveToScript), k, moveToScript)
  }

  /** What follows the last match: up to the first `</html>` after it, the
      script block and `</html>` itself; with no `</html>`, the script block alone. */
  function Closing(inbuf: Bytes, from: nat, script: Bytes): Bytes
    requires from <= |inbuf|
  {
    match FirstIndexOf(inbuf[from..], CLOSE_HTML)
    case Some(p) => inbuf[from..from + p] + script + CLOSE_HTML
    case None => script
  }

  /** The script block written for the document, if any. */
  function Script(moveToScript: bool, pairs: seq<IdValuePair>): Bytes
  {
    if moveToScript then ScriptBlock(pairs) else []
  }

  /** The whole output of translateHTML for a document whose matches are
      `ms`, given the pairs its slot already holds. */
  function DocOut(env: Env, inbuf: Bytes, ms: seq<seq<int>>, curDir: Bytes, moveToScript: bool,
                  prior: seq<IdValuePair>): Bytes
    requires WellFormedMatches(inbuf, ms)
  {
    PrevEndInRange(inbuf, ms, |ms|);
    Body(env, inbuf, ms, |ms|, curDir, moveToScript)
    + Closing(inbuf, PrevEnd(ms, |ms|),
              Script(moveToScript, prior + TagPairs(env, inbuf, ms, |ms|, curDir, moveToScript)))
  }

  // ---------------------------------------------------------------------
  // translateHTML

  /** One iteration of translateHTML's loop: the bytes since the previous
      match, the rewritten tag, and the tag's error or, in script mode, its pair. */
  method TranslateMatch(env: Env, inbuf: Bytes, matches: seq<seq<int>>, k: nat, curDir: Bytes, moveToScript: bool,
                        outbuf: Bytes, errs: seq<Error>, pairs: seq<IdValuePair>,
                        out0: Bytes, errors0: seq<Error>, pairs0: seq<IdValuePair>)
    returns (out: Bytes, errors: seq<Error>, allPairs: seq<IdValuePair>)
    requires WellFormedMatches(inbuf, matches) && k < |matches|
    requires out0 == outbuf + Body(env, inbuf, matches, k, curDir, moveToScript)
    requires errors0 == errs + TagErrors(env, inbuf, matches, k, curDir, moveToScript)
    requires pairs0 == pairs + TagPairs(env, inbuf, matches, k, curDir, moveToScript)
    ensures out == outbuf + Body(env, inbuf, matches, k + 1, curDir, moveToScript)
    ensures errors == errs + TagErrors(env, inbuf, matches, k + 1, curDir, moveToScript)
    ensures allPairs == pairs + TagPairs(env, inbuf, matches, k + 1, curDir, moveToScript)
  {
    var matchList := matches[k];
    PrevEndInRange(inbuf, matches, k);
    var curStart := if k == 0 then 0 else matches[k - 1][1];
    out := out0 + inbuf[curStart..matchList[0]];
    var id, basedValue, err;
    out, id, basedValue, err := TranslateImgTag(env, inbuf, out, matchList, curDir, moveToScript);
    errors, allPairs := errors0, pairs0;
    if err.Some? {
      errors := errors + [err.value];
    } else if moveToScript {
      allPairs := allPairs + [IdValuePair(id, basedValue)];
    }
    assert out == outbuf + Body(env, inbuf, matches, k + 1, curDir, moveToScript) by {
      var outs := TagOuts(env, inbuf, matches, curDir, moveToScript);
      var prev := Weave(inbuf, matches, outs, k);
      var gap := inbuf[curStart..matchList[0]];
      var tag := TagOut(env, inbuf, matchList, curDir, moveToScript);
      assert outs[k] == tag;
      assert Weave(inbuf, matches, outs, k + 1) == prev + gap + tag;
      AppendAssoc(outbuf, prev, gap);
      AppendAssoc(outbuf, prev + gap, tag);
    }
    ghost var rs := TagResults(env, inbuf, matches, curDir, moveToScript);
    assert rs[k] == TagResult(err, IdValuePair(id, basedValue));
    assert errors == errs + TagErrors(env, inbuf, matches, k + 1, curDir, moveToScript) by {
      var added := if err.Some? then [err.value] else [];
      assert ErrorsOf(rs, k + 1) == ErrorsOf(rs, k) + added;
      assert errors == errors0 + added;
      AppendAssoc(errs, ErrorsOf(rs, k), added);
    }
    assert allPairs == pairs + TagPairs(env, inbuf, matches, k + 1, curDir, moveToScript) by {
      var added := if moveToScript && err.None? then [IdValuePair(id, basedValue)] else [];
      assert PairsOf(rs, k + 1, moveToScript) == PairsOf(rs, k, moveToScript) + added;
      assert allPairs == pairs0 + added;
      AppendAssoc(pairs, PairsOf(rs, k, moveToScript), added);
    }
  }

  /** The end of translateHTML: the bytes up to the first `</html>` after
      the last match, the script block in script mode, and `</html>` if it was found. */
  method WriteClosing(inbuf: Bytes, curStart: nat, moveToScript: bool, allPairs: seq<IdValuePair>, outbuf: Bytes)
    returns (out: Bytes)
    requires curStart <= |inbuf|
    ensures out == outbuf + Closing(inbuf, curStart, Script(moveToScript, allPairs))
  {
    ghost var script := Script(moveToScript, allPairs);
    var closeHTML := FirstIndexOf(inbuf[curStart..], CLOSE_HTML);
    if closeHTML.Some? {
      var x := inbuf[curStart..curStart + closeHTML.value];
      out := outbuf + x;
      out := WriteScriptIf(moveToScript, allPairs, out);
      out := out + CLOSE_HTML;
      assert Closing(inbuf, curStart, script) == x + script + CLOSE_HTML;
      AppendAssoc(outbuf, x, script);
      AppendAssoc(outbuf, x + script, CLOSE_HTML);
    } else {
      out := WriteScriptIf(moveToScript, allPairs, outbuf);
      assert Closing(inbuf, curStart, script) == script;
    }
  }

  /** The script block, written only in script mode. */
  method WriteScriptIf(moveToScript: bool, allPairs: seq<IdValuePair>, outbuf: Bytes) returns (out: Bytes)
    ensures out == outbuf + Script(moveToScript, allPairs)
  {
    if moveToScript {
      out := WriteScript(outbuf, allPairs);
    } else {
      out := outbuf;
    }
  }

  /** translateHTML: copies the document with every match rewritten,
      records each tag's error or, in script mode, its pair, then closes the
      document.  The slot's earlier pairs are part of the script block. */
  method TranslateHTML(env: Env, inbuf: Bytes, curDir: Bytes, moveToScript: bool,
                       outbuf: Bytes, errs: seq<Error>, pairs: seq<IdValuePair>)
    returns (out: Bytes, errors: seq<Error>, allPairs: seq<IdValuePair>)
    requires WellFormedMatches(inbuf, env.scan(inbuf))
    ensures var ms := env.scan(inbuf);
      && out == outbuf + DocOut(env, inbuf, ms, curDir, moveToScript, pairs)
      && errors == errs + TagErrors(env, inbuf, ms, |ms|, curDir, moveToScript)
      && allPairs == pairs + TagPairs(env, inbuf, ms, |ms|, curDir, moveToScript)
  {
    var matches := env.scan(inbuf);
    var curStart;
    out, errors, allPairs, curStart := TranslateMatches(env, inbuf, matches, curDir, moveToScript, outbuf, errs, pairs);
    // curStart is the end of the last match, so it never exceeds len(inbuf)
    // and the early return of the source is never taken.
    PrevEndInRange(inbuf, matches, |matches|);
    ghost var body := Body(env, inbuf, matches, |matches|, curDir, moveToScript);
    ghost var beforeClosing := out;
    out := WriteClosing(inbuf, curStart, moveToScript, allPairs, out);
    assert out == outbuf + DocOut(env, inbuf, matches, curDir, moveToScript, pairs) by {
      var closing := Closing(inbuf, curStart, Script(moveToScript, allPairs));
      assert out == beforeClosing + closing;
      assert DocOut(env, inbuf, matches, curDir, moveToScript, pairs) == body + closing;
      AppendAssoc(outbuf, body, closing);
    }
  }

  /** The loop of translateHTML over the matches. */
  method TranslateMatches(env: Env, inbuf: Bytes, matches: seq<seq<int>>, curDir: Bytes, moveToScript: bool,
                          outbuf: Bytes, errs: seq<Error>, pairs: seq<IdValuePair>)
    returns (out: Bytes, errors: seq<Error>, allPairs: seq<IdValuePair>, curStart: int)
    requires WellFormedMatches(inbuf, matches)
    ensures curStart == PrevEnd(matches, |matches|)
    ensures out == outbuf + Body(env, inbuf, matches, |matches|, curDir, moveToScript)
    ensures errors == errs + TagErrors(env, inbuf, matches, |matches|, curDir, moveToScript)
    ensures allPairs == pairs + TagPairs(env, inbuf, matches, |matches|, curDir, moveToScript)
  {
    out, errors, allPairs := outbuf, errs, pairs;
    curStart := 0;
    for k := 0 to |matches|
      invariant curStart == PrevEnd(matches, k)
      invariant out == outbuf + Body(env, inbuf, matches, k, curDir, moveToScript)
      invariant errors == errs + TagErrors(env, inbuf, matches, k, curDir, moveToScript)
      invariant allPairs == pairs + TagPairs(env, inbuf, matches, k, curDir, moveToScript)
    {
      out, errors, allPairs := TranslateMatch(env, inbuf, matches, k, curDir, moveToScript,
                                              outbuf, errs, pairs, out, errors, allPairs);
      curStart := matches[k][1];
    }
  }

  // ---------------------------------------------------------------------
  // Properties of a document's rewrite

  /** A tag nothing in which is rewritten: no `src`, no `id`, and every
      attribute written exactly as `name="value"`. */
  predicate PlainTag(inbuf: Bytes, m: seq<int>)
    requires ValidSlots(inbuf, m)
  {
    PlainSlots(inbuf, m, SetSlots(m))
  }

  /** When every tag so far is copied unchanged, so is the document up to the end of the last one. */
  lemma {:induction false} WeaveOfVerbatimTags(inbuf: Bytes, ms: seq<seq<int>>, outs: seq<Bytes>, k: nat)
    requires Ordered(inbuf, ms) && |outs| == |ms| && k <= |ms|
    requires forall i :: 0 <= i < k ==> outs[i] == inbuf[ms[i][0]..ms[i][1]]
    ensures 0 <= PrevEnd(ms, k) <= |inbuf|
    ensures Weave(inbuf, ms, outs, k) == inbuf[..PrevEnd(ms, k)]
  {
    PrevEndInRange(inbuf, ms, k);
    if k > 0 {
      var m := ms[k - 1];
      WeaveOfVerbatimTags(inbuf, ms, outs, k - 1);
      PrevEndInRange(inbuf, ms, k - 1);
      var e := PrevEnd(ms, k - 1);
      assert Weave(inbuf, ms, outs, k) == inbuf[..e] + inbuf[e..m[0]] + inbuf[m[0]..m[1]];
      PrefixExtend(inbuf, e, m[0]);
      PrefixExtend(inbuf, m[0], m[1]);
    }
  }

  /** A body of plain tags is the document up to the end of the last tag. */
  lemma PlainBody(env: Env, inbuf: Bytes, ms: seq<seq<int>>, curDir: Bytes, moveToScript: bool)
    requires WellFormedMatches(inbuf, ms)
    requires forall i :: 0 <= i < |ms| ==> ValidSlots(inbuf, ms[i]) && PlainTag(inbuf, ms[i])
    ensures 0 <= PrevEnd(ms, |ms|) <= |inbuf|
    ensures Body(env, inbuf, ms, |ms|, curDir, moveToScript) == inbuf[..PrevEnd(ms, |ms|)]
  {
    var outs := TagOuts(env, inbuf, ms, curDir, moveToScript);
    forall i | 0 <= i < |ms|
      ensures 0 <= ms[i][0] <= ms[i][1] <= |inbuf| && outs[i] == inbuf[ms[i][0]..ms[i][1]]
    {
      CanonicalTagRoundTrip(env, inbuf, ms[i], curDir, moveToScript);
    }
    WeaveOfVerbatimTags(inbuf, ms, outs, |ms|);
  }

  /** Where the copy of a document ends outside script mode: after the
      first `</html>` at or after `from`, or at `from` when there is none. */
  function CopyEnd(inbuf: Bytes, from: nat): (r: nat)
    requires from <= |inbuf|
    ensures from <= r <= |inbuf|
  {
    match FirstIndexOf(inbuf[from..], CLOSE_HTML)
    case Some(p) =>
      assert OccursAt(inbuf[from..], CLOSE_HTML, p);
      from + p + |CLOSE_HTML|
    case None => from
  }

  /** With no script block, the closing is the bytes from `from` through the first `</html>`. */
  lemma ClosingWithoutScript(inbuf: Bytes, from: nat)
    requires from <= |inbuf|
    ensures Closing(inbuf, from, []) == inbuf[from..CopyEnd(inbuf, from)]
  {
    match FirstIndexOf(inbuf[from..], CLOSE_HTML)
    case Some(p) =>
      var c := from + p + |CLOSE_HTML|;
      assert OccursAt(inbuf[from..], CLOSE_HTML, p);
      assert inbuf[from..][p..p + |CLOSE_HTML|] == inbuf[from + p..c];
      SliceConcat(inbuf, from, from + p, c);
    case None =>
  }

  /** Outside script mode no script block is written. */
  lemma DocOutWithoutScript(env: Env, inbuf: Bytes, ms: seq<seq<int>>, curDir: Bytes, prior: seq<IdValuePair>)
    requires WellFormedMatches(inbuf, ms)
    ensures 0 <= PrevEnd(ms, |ms|) <= |inbuf|
    ensures DocOut(env, inbuf, ms, curDir, false, prior)
      == Body(env, inbuf, ms, |ms|, curDir, false) + Closing(inbuf, PrevEnd(ms, |ms|), [])
  {
    PrevEndInRange(inbuf, ms, |ms|);
  }

  /** Outside script mode a document whose tags are all plain is copied up
      to and including the first `</html>` after the last tag: everything
      after it is dropped, and with no `</html>` everything after the last
      tag is dropped. */
  lemma PlainDocumentIsItsPrefix(env: Env, inbuf: Bytes, ms: seq<seq<int>>, curDir: Bytes, prior: seq<IdValuePair>)
    requires WellFormedMatches(inbuf, ms)
    requires forall i :: 0 <= i < |ms| ==> ValidSlots(inbuf, ms[i]) && PlainTag(inbuf, ms[i])
    ensures 0 <= PrevEnd(ms, |ms|) <= |inbuf|
    ensures DocOut(env, inbuf, ms, curDir, false, prior) == inbuf[..CopyEnd(inbuf, PrevEnd(ms, |ms|))]
  {
    PlainBody(env, inbuf, ms, curDir, false);
    DocOutWithoutScript(env, inbuf, ms, curDir, prior);
    var e := PrevEnd(ms, |ms|);
    var c := CopyEnd(inbuf, e);
    ClosingWithoutScript(inbuf, e);
    PrefixExtend(inbuf, e, c);
  }

  /** In script mode a tag records exactly one thing, an error or a pair;
      outside it no pair is recorded. */
  lemma {:induction false} OneOutcomePerTag(rs: seq<TagResult>, k: nat, moveToScript: bool)
    requires k <= |rs|
    ensures moveToScript ==> |ErrorsOf(rs, k)| + |PairsOf(rs, k, moveToScript)| == k
    ensures !moveToScript ==> PairsOf(rs, k, moveToScript) == []
  {
    if k > 0 {
      OneOutcomePerTag(rs, k - 1, moveToScript);
    }
  }

  /** In script mode the rewritten body does not depend on what fetching
      the images yields: only the script block does. */
  lemma ScriptModeBodyIgnoresFetch(env1: Env, env2: Env, inbuf: Bytes, ms: seq<seq<int>>, k: nat, curDir: Bytes)
    requires WellFormedMatches(inbuf, ms) && k <= |ms|
    ensures Body(env1, inbuf, ms, k, curDir, true) == Body(env2, inbuf, ms, k, curDir, true)
  {
    var outs1, outs2 := TagOuts(env1, inbuf, ms, curDir, true), TagOuts(env2, inbuf, ms, curDir, true);
    forall i | 0 <= i < |ms| ensures outs1[i] == outs2[i] {
      ScriptModeTagIgnoresFetch(env1, env2, inbuf, ms[i], curDir);
    }
    assert outs1 == outs2;
  }

  /** Every recorded pair is that of a tag that returned no error. */
  lemma {:induction false} PairsComeFromTags(rs: seq<TagResult>, k: nat, moveToScript: bool)
    requires k <= |rs|
    ensures forall p :: p in PairsOf(rs, k, moveToScript) ==> exists i :: 0 <= i < k && rs[i].err.None? && p == rs[i].pair
  {
    if k > 0 && moveToScript {
      PairsComeFromTags(rs, k - 1, moveToScript);
    }
  }
}
