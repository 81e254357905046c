/** The per-worker scratch state of `main`: one output buffer, one error
    list and (in script mode) one pair list per worker slot; handleHTML,
    clearBuf and handleErrors on them; and the round-by-round dispatch of the
    collected files to the slots.  The goroutines of one round are run one
    after another: each touches only its own slot. */
module Workers {
  import opened Wrappers
  import opened Bytes
  import opened Oracles
  import opened GoSlice
  import opened Paths
  import opened Document

  const GO_COUNT_DEFAULT: nat := 4
  const LIST_DEFAULT_CAP: nat := 16
  const BUF_DEFAULT_CAP: nat := 2 * 1048576

  /** The zero values Go fills fresh backing arrays with. */
  const NIL_ERROR: Option<Error> := None
  const ZERO_BYTE: byte := 0
  const ZERO_PAIR: IdValuePair := IdValuePair([], [])

  function Min(a: nat, b: nat): nat
  {
    if a < b then a else b
  }

  /** The regular expression's guarantee: every list of matches it reports is well formed. */
  ghost predicate ScanWellFormed(env: Env)
  {
    forall inbuf :: WellFormedMatches(inbuf, env.scan(inbuf))
  }

  // ---------------------------------------------------------------------
  // Error lists

  /** Every element of an error list is a non-nil error. */
  predicate AllSet(es: seq<Option<Error>>)
  {
    forall i :: 0 <= i < |es| ==> es[i].Some?
  }

  /** The errors themselves. */
  function Values(es: seq<Option<Error>>): (r: seq<Error>)
    requires AllSet(es)
    ensures |r| == |es| && forall i :: 0 <= i < |es| ==> es[i] == Some(r[i])
  {
    seq(|es|, i requires 0 <= i < |es| => es[i].value)
  }

  /** Errors as the non-nil values a Go error list holds. */
  function Somes(es: seq<Error>): (r: seq<Option<Error>>)
    ensures AllSet(r) && Values(r) == es
  {
    seq(|es|, i requires 0 <= i < |es| => Some(es[i]))
  }

  /** An error slice whose elements are all set. */
  predicate ErrorSliceOk(s: Slice<Option<Error>>)
  {
    s.Valid() && AllSet(s.Contents())
  }

  /** Appending set errors to an error slice keeps every element set. */
  lemma AppendErrors(s: Slice<Option<Error>>, xs: seq<Option<Error>>)
    requires ErrorSliceOk(s) && AllSet(xs)
    ensures ErrorSliceOk(Append(s, xs))
  {
    var c := Append(s, xs).Contents();
    assert c == s.Contents() + xs;
    forall i | 0 <= i < |c| ensures c[i].Some? {
      if i < s.len {
        assert c[i] == s.Contents()[i];
      } else {
        assert c[i] == xs[i - s.len];
      }
    }
  }

  /** Every slot's error slice is one. */
  predicate SlotsOk(es: seq<Slice<Option<Error>>>)
  {
    forall i :: 0 <= i < |es| ==> ErrorSliceOk(es[i])
  }

  /** What handleErrors prints for the first `k` slots: every error of
      every slot, in slot order. */
  function Printed(es: seq<Slice<Option<Error>>>, k: nat): seq<Error>
    requires SlotsOk(es) && k <= |es|
  {
    if k == 0 then [] else Printed(es, k - 1) + Values(es[k - 1].Contents())
  }

  /** The first error of each of the first `k` slots that has one, in slot order. */
  function FirstErrors(es: seq<Slice<Option<Error>>>, k: nat): seq<Error>
    requires SlotsOk(es) && k <= |es|
  {
    if k == 0 then []
    else FirstErrors(es, k - 1) + (if es[k - 1].len == 0 then [] else [es[k - 1].backing[0].value])
  }

  /** What handleErrors leaves in one slot: an empty list stays as it is,
      any other is cut back to its first element. */
  function Truncate(s: Slice<Option<Error>>): (r: Slice<Option<Error>>)
    requires ErrorSliceOk(s)
    ensures ErrorSliceOk(r) && r.Cap() == s.Cap()
    ensures s.len == 0 ==> r == s
    ensures s.len > 0 ==> r.Contents() == [s.Contents()[0]]
  {
    if s.len == 0 then s else Reslice(s, 1)
  }

  /** What handleErrors leaves in every slot. */
  function TruncateAll(es: seq<Slice<Option<Error>>>): (r: seq<Slice<Option<Error>>>)
    requires SlotsOk(es)
    ensures |r| == |es| && SlotsOk(r)
    ensures forall i :: 0 <= i < |es| ==> r[i] == Truncate(es[i])
  {
    seq(|es|, i requires 0 <= i < |es| => Truncate(es[i]))
  }

  /** After a flush each slot holds at most its first error, so a second
      flush prints exactly those first errors again and leaves the slots as
      they are. */
  lemma {:induction false} FlushReprintsFirstErrors(es: seq<Slice<Option<Error>>>, k: nat)
    requires SlotsOk(es) && k <= |es|
    ensures Printed(TruncateAll(es), k) == FirstErrors(es, k)
    ensures TruncateAll(TruncateAll(es)) == TruncateAll(es)
  {
    var t := TruncateAll(es);
    if k > 0 {
      FlushReprintsFirstErrors(es, k - 1);
      var last := es[k - 1];
      if last.len > 0 {
        assert Values(t[k - 1].Contents()) == [last.backing[0].value];
      }
    }
    assert TruncateAll(t) == t by {
      forall i | 0 <= i < |t| ensures Truncate(t[i]) == t[i] {
        if es[i].len > 0 {
          assert t[i] == Reslice(es[i], 1);
        }
      }
    }
  }

  // ---------------------------------------------------------------------
  // handleHTML on one slot

  /** The output path of an input file (getAbsPathFitStructure). */
  function OutputPath(env: Env, cwd: Bytes, outDirAbs: Bytes, path: Bytes): Bytes
  {
    env.join(outDirAbs, StripParents(if IsAbs(path) then env.rel(cwd, path) else path))
  }

  /** A slot's state after handleHTML, and the bytes handed to os.WriteFile if it got that far. */
  datatype Handled = Handled(buf: Slice<byte>, errors: Slice<Option<Error>>, pairs: Slice<IdValuePair>, written: Option<Bytes>)

  /** handleHTML on a slot: a read or mkdir failure records the error and
      writes nothing; otherwise the file is rewritten as Translate says.  On
      every path the buffer is then cut back to one byte. */
  function HandleFile(env: Env, cwd: Bytes, outDirAbs: Bytes, moveToScript: bool, curFile: Bytes,
                      buf: Slice<byte>, errors: Slice<Option<Error>>, pairs: Slice<IdValuePair>): (r: Handled)
    requires ScanWellFormed(env)
    requires buf.Valid() && buf.Cap() >= 1 && ErrorSliceOk(errors) && pairs.Valid()
    ensures r.buf.Valid() && r.buf.len == 1 && r.buf.Cap() >= buf.Cap()
    ensures ErrorSliceOk(r.errors) && r.pairs.Valid()
    ensures !moveToScript ==> r.pairs == pairs
  {
    var h := Handle(env, cwd, outDirAbs, moveToScript, curFile, buf, errors, pairs);
    Handled(Reslice(h.buf, 1), h.errors, h.pairs, h.written)
  }

  /** handleHTML up to its deferred clearBuf. */
  function Handle(env: Env, cwd: Bytes, outDirAbs: Bytes, moveToScript: bool, curFile: Bytes,
                  buf: Slice<byte>, errors: Slice<Option<Error>>, pairs: Slice<IdValuePair>): (r: Handled)
    requires ScanWellFormed(env)
    requires buf.Valid() && ErrorSliceOk(errors) && pairs.Valid()
    ensures r.buf.Valid() && r.buf.Cap() >= buf.Cap()
    ensures ErrorSliceOk(r.errors) && r.pairs.Valid()
    ensures !moveToScript ==> r.pairs == pairs
  {
    var outputPath := OutputPath(env, cwd, outDirAbs, curFile);
    match env.readFile(curFile)
    case Failure(e) =>
      AppendErrors(errors, [Some(e)]);
      Handled(buf, Append(errors, [Some(e)]), pairs, None)
    case Success(inbuf) =>
      match env.mkdirAll(env.dir(outputPath))
      case Some(e) =>
        AppendErrors(errors, [Some(e)]);
        Handled(buf, Append(errors, [Some(e)]), pairs, None)
      case None =>
        assert WellFormedMatches(inbuf, env.scan(inbuf));
        Translate(env, outputPath, moveToScript, curFile, inbuf, buf, errors, pairs)
  }

  /** handleHTML once the file is read and its output directory made: the
      rewrite is appended to the slot's buffer after what clearBuf left
      there, the tags' errors and (in script mode) pairs are recorded, the
      buffer is written out and a write failure is recorded too.  The
      buffer is not yet cut back. */
  function Translate(env: Env, outputPath: Bytes, moveToScript: bool, curFile: Bytes, inbuf: Bytes,
                     buf: Slice<byte>, errors: Slice<Option<Error>>, pairs: Slice<IdValuePair>): (r: Handled)
    requires WellFormedMatches(inbuf, env.scan(inbuf))
    requires buf.Valid() && ErrorSliceOk(errors) && pairs.Valid()
    ensures r.buf.Valid() && r.buf.Cap() >= buf.Cap()
    ensures ErrorSliceOk(r.errors) && r.pairs.Valid()
    ensures !moveToScript ==> r.pairs == pairs
    ensures var ms, curDir := env.scan(inbuf), env.dir(curFile);
      var out := buf.Contents() + DocOut(env, inbuf, ms, curDir, moveToScript, pairs.Contents());
      var w := env.writeFile(outputPath, out);
      && r.buf.Contents() == out && r.written == Some(out)
      && r.errors.Contents() == errors.Contents() + Somes(TagErrors(env, inbuf, ms, |ms|, curDir, moveToScript))
                                + (if w.Some? then [w] else [])
      && r.pairs.Contents() == pairs.Contents() + TagPairs(env, inbuf, ms, |ms|, curDir, moveToScript)
  {
    var ms := env.scan(inbuf);
    var curDir := env.dir(curFile);
    var buf1 := Append(buf, DocOut(env, inbuf, ms, curDir, moveToScript, pairs.Contents()));
    var errors1 := Append(errors, Somes(TagErrors(env, inbuf, ms, |ms|, curDir, moveToScript)));
    var pairs1 := Append(pairs, TagPairs(env, inbuf, ms, |ms|, curDir, moveToScript));
    var w := env.writeFile(outputPath, buf1.Contents());
    AppendErrors(errors, Somes(TagErrors(env, inbuf, ms, |ms|, curDir, moveToScript)));
    // a nil write error appends nothing
    var writeErrors := if w.Some? then [w] else [];
    AppendErrors(errors1, writeErrors);
    var errors2 := Append(errors1, writeErrors);
    Handled(buf1, errors2, pairs1, Some(buf1.Contents()))
  }

  /** The rewrite handleHTML writes for a file that reads and whose output directory can be made. */
  function Rewrite(env: Env, cwd: Bytes, outDirAbs: Bytes, moveToScript: bool, curFile: Bytes,
                   inbuf: Bytes, pairs: Slice<IdValuePair>): Bytes
    requires ScanWellFormed(env) && pairs.Valid()
  {
    assert WellFormedMatches(inbuf, env.scan(inbuf));
    DocOut(env, inbuf, env.scan(inbuf), env.dir(curFile), moveToScript, pairs.Contents())
  }

  /** What a file that reads and whose output directory is made leaves
      behind: the buffer's old contents and the rewrite are written out, the
      tags' errors and then a failed write's error are recorded, and the
      tags' pairs are added after the slot's earlier ones. */
  lemma WrittenFileRecords(env: Env, cwd: Bytes, outDirAbs: Bytes, moveToScript: bool, curFile: Bytes,
                           buf: Slice<byte>, errors: Slice<Option<Error>>, pairs: Slice<IdValuePair>)
    requires ScanWellFormed(env)
    requires buf.Valid() && buf.Cap() >= 1 && ErrorSliceOk(errors) && pairs.Valid()
    ensures var r := HandleFile(env, cwd, outDirAbs, moveToScript, curFile, buf, errors, pairs);
      var outputPath := OutputPath(env, cwd, outDirAbs, curFile);
      env.readFile(curFile).Success? && env.mkdirAll(env.dir(outputPath)).None? ==>
        var inbuf := env.readFile(curFile).value;
        var ms, curDir := env.scan(inbuf), env.dir(curFile);
        var out := buf.Contents() + Rewrite(env, cwd, outDirAbs, moveToScript, curFile, inbuf, pairs);
        var w := env.writeFile(outputPath, out);
        && r.written == Some(out)
        && r.errors.Contents() == errors.Contents() + Somes(TagErrors(env, inbuf, ms, |ms|, curDir, moveToScript))
                                  + (if w.Some? then [w] else [])
        && r.pairs.Contents() == pairs.Contents() + TagPairs(env, inbuf, ms, |ms|, curDir, moveToScript)
  {
    var outputPath := OutputPath(env, cwd, outDirAbs, curFile);
    if env.readFile(curFile).Success? && env.mkdirAll(env.dir(outputPath)).None? {
      var inbuf := env.readFile(curFile).value;
      assert WellFormedMatches(inbuf, env.scan(inbuf));
      var t := Translate(env, outputPath, moveToScript, curFile, inbuf, buf, errors, pairs);
      assert Handle(env, cwd, outDirAbs, moveToScript, curFile, buf, errors, pairs) == t;
    }
  }

  /** The buffer a slot keeps between files: clearBuf leaves one byte, the
      old first byte when the buffer held one, and otherwise the first byte
      of the rewrite just written, or the zero byte of the fresh backing
      array when nothing was written or the rewrite was empty.  Every later
      file on the slot starts with that byte, and it is kept again. */
  lemma StaleBytePersists(env: Env, cwd: Bytes, outDirAbs: Bytes, moveToScript: bool, curFile: Bytes,
                          buf: Slice<byte>, errors: Slice<Option<Error>>, pairs: Slice<IdValuePair>)
    requires ScanWellFormed(env)
    requires buf.Valid() && buf.Cap() >= 1 && ErrorSliceOk(errors) && pairs.Valid()
    ensures var r := HandleFile(env, cwd, outDirAbs, moveToScript, curFile, buf, errors, pairs);
      && (r.written.Some? <==>
            env.readFile(curFile).Success? && env.mkdirAll(env.dir(OutputPath(env, cwd, outDirAbs, curFile))).None?)
      && (r.written.Some? ==>
            r.written.value == buf.Contents() + Rewrite(env, cwd, outDirAbs, moveToScript, curFile, env.readFile(curFile).value, pairs))
      && (buf.len > 0 ==> r.buf.Contents() == [buf.backing[0]])
      && (r.written.None? ==> r.buf.Contents() == [buf.backing[0]])
      && (buf.len == 0 && r.written.Some? ==>
            r.buf.Contents() == [if r.written.value == [] then buf.backing[0] else r.written.value[0]])
  {
  }

  /** A file that cannot be read, or whose output directory cannot be made,
      adds exactly that error to its slot and nothing else. */
  lemma FailedFileRecordsOneError(env: Env, cwd: Bytes, outDirAbs: Bytes, moveToScript: bool, curFile: Bytes,
                                  buf: Slice<byte>, errors: Slice<Option<Error>>, pairs: Slice<IdValuePair>)
    requires ScanWellFormed(env)
    requires buf.Valid() && buf.Cap() >= 1 && ErrorSliceOk(errors) && pairs.Valid()
    ensures var r := HandleFile(env, cwd, outDirAbs, moveToScript, curFile, buf, errors, pairs);
      var mk := env.mkdirAll(env.dir(OutputPath(env, cwd, outDirAbs, curFile)));
      && (env.readFile(curFile).Failure? ==>
            r.errors.Contents() == errors.Contents() + [Some(env.readFile(curFile).error)] && r.pairs == pairs)
      && (env.readFile(curFile).Success? && mk.Some? ==>
            r.errors.Contents() == errors.Contents() + [mk] && r.pairs == pairs)
  {
    var h := Handle(env, cwd, outDirAbs, moveToScript, curFile, buf, errors, pairs);
    var outputPath := OutputPath(env, cwd, outDirAbs, curFile);
    match env.readFile(curFile)
    case Failure(e) =>
      assert h == Handled(buf, Append(errors, [Some(e)]), pairs, None);
    case Success(inbuf) =>
      var mk := env.mkdirAll(env.dir(outputPath));
      if mk.Some? {
        assert h == Handled(buf, Append(errors, [mk]), pairs, None);
      }
  }

  /** In script mode a slot's pairs only ever grow: a written file adds its
      own tags' pairs after those of the files before it on the same slot,
      and a file that is not written adds none. */
  lemma PairsAccumulate(env: Env, cwd: Bytes, outDirAbs: Bytes, curFile: Bytes,
                        buf: Slice<byte>, errors: Slice<Option<Error>>, pairs: Slice<IdValuePair>)
    requires ScanWellFormed(env)
    requires buf.Valid() && buf.Cap() >= 1 && ErrorSliceOk(errors) && pairs.Valid()
    ensures var r := HandleFile(env, cwd, outDirAbs, true, curFile, buf, errors, pairs);
      && (r.written.None? ==> r.pairs == pairs)
      && (r.written.Some? && env.readFile(curFile).Success? ==>
            var inbuf := env.readFile(curFile).value;
            var ms := env.scan(inbuf);
            r.pairs.Contents() == pairs.Contents() + TagPairs(env, inbuf, ms, |ms|, env.dir(curFile), true))
  {
    WrittenFileRecords(env, cwd, outDirAbs, true, curFile, buf, errors, pairs);
    FailedFileRecordsOneError(env, cwd, outDirAbs, true, curFile, buf, errors, pairs);
    StaleBytePersists(env, cwd, outDirAbs, true, curFile, buf, errors, pairs);
  }

  // ---------------------------------------------------------------------
  // The dispatch schedule

  /** A multiple of g is 0, at least g or at most -g. */
  lemma MultipleGap(k: int, g: int)
    requires g > 0
    ensures k == 0 || k * g >= g || k * g <= -g
  {
    if k >= 1 {
      assert k * g == (k - 1) * g + g;
      assert (k - 1) * g >= 0;
    } else if k <= -1 {
      assert k * g == (k + 1) * g - g;
      assert (k + 1) * g <= 0;
    }
  }

  /** Quotient and remainder of q * g + r for 0 <= r < g. */
  lemma DivMod(q: nat, g: nat, r: nat)
    requires 0 <= r < g
    ensures (q * g + r) / g == q && (q * g + r) % g == r
  {
    var x := q * g + r;
    var d, m := x / g, x % g;
    assert x == d * g + m;
    assert (d - q) * g == r - m;
    MultipleGap(d - q, g);
  }

  /** Euclidean division of a natural number, with a non-negative quotient. */
  lemma Euclid(k: nat, g: nat)
    requires g > 0
    ensures k == (k / g) * g + k % g && 0 <= k % g < g && (k / g) * g >= 0
  {
  }


  /** a <= b, so a * g <= b * g. */
  lemma MulMono(a: nat, b: nat, g: nat)
    requires a <= b
    ensures a * g <= b * g
  {
    assert b * g == a * g + (b - a) * g;
  }

  /** A multiple of g that fits in n counts at most n div g. */
  lemma MulLeDiv(a: nat, g: nat, n: nat)
    requires g > 0 && a * g <= n
    ensures a <= n / g
  {
    NextRoundPastEnd(n, g);
    if a > n / g {
      MulMono(n / g + 1, a, g);
    }
  }

  /** The round that starts at or before the last file, less than g
      files before the end, is round n div g. */
  lemma LastRound(q: nat, g: nat, n: nat)
    requires g > 0 && q * g <= n < q * g + g
    ensures n / g == q
  {
    DivMod(q, g, n - q * g);
  }

  /** Round r starts goCount files after round r-1. */
  lemma RoundsArith(r: nat, g: nat)
    requires r > 0
    ensures (r - 1) * g + g == r * g && g <= r * g
  {
    assert r * g == (r - 1) * g + g;
  }

  /** The files of round r of the dispatch loop over n files, by index:
      goCount of them, or those that remain when fewer do. */
  function RoundFiles(n: nat, g: nat, r: nat): seq<nat>
  {
    var start := r * g;
    if start >= n then [] else seq(Min(g, n - start), j requires 0 <= j < Min(g, n - start) => start + j)
  }

  /** Round r, when it starts at a file, takes min(g, n - r*g) files from r*g on. */
  lemma RoundFilesShape(n: nat, g: nat, r: nat, start: nat)
    requires start == r * g < n
    ensures var round := RoundFiles(n, g, r);
      |round| == Min(g, n - start) && forall j :: 0 <= j < |round| ==> round[j] == start + j
  {
  }

  /** The rounds of the dispatch loop over n files with g slots: n div g
      full rounds, then one more that is partial or empty.  handleErrors
      follows every round, and slot j takes the j-th file of its round. */
  function Schedule(n: nat, g: nat): (rounds: seq<seq<nat>>)
    requires g > 0
    ensures |rounds| == n / g + 1
  {
    seq(n / g + 1, r requires 0 <= r < n / g + 1 => RoundFiles(n, g, r))
  }

  /** The rounds one after another. */
  function Flatten(rounds: seq<seq<nat>>): seq<nat>
  {
    if rounds == [] then [] else Flatten(rounds[..|rounds| - 1]) + rounds[|rounds| - 1]
  }

  /** The file indexes 0, 1, ..., n-1 in order. */
  function Range(n: nat): seq<nat>
  {
    seq(n, k requires 0 <= k < n => k)
  }

  /** File k is dispatched in round k div g, on slot k mod g. */
  lemma ScheduleDispatchesFile(n: nat, g: nat, k: nat)
    requires g > 0 && k < n
    ensures var s := Schedule(n, g);
      k / g < |s| && k % g < |s[k / g]| && s[k / g][k % g] == k
  {
    Euclid(k, g);
    MulLeDiv(k / g, g, n);
  }

  /** Slot j of round r holds file r*g + j, which is a file, belongs to
      round r and sits on slot j: so every file is dispatched once, and the
      slots of one round are distinct and below min(n, g). */
  lemma ScheduleSlots(n: nat, g: nat, r: nat, j: nat)
    requires g > 0
    requires r < |Schedule(n, g)| && j < |Schedule(n, g)[r]|
    ensures var f := Schedule(n, g)[r][j];
      f == r * g + j && f < n && f / g == r && f % g == j && j < Min(n, g)
  {
    DivMod(r, g, j);
  }

  /** The rounds take the files in order, each once. */
  lemma {:induction false} FlattenSchedule(n: nat, g: nat)
    requires g > 0
    ensures Flatten(Schedule(n, g)) == Range(n)
  {
    var s := Schedule(n, g);
    FlattenRounds(n, g, |s|);
    assert s[..|s|] == s;
    NextRoundPastEnd(n, g);
  }

  /** Round n div g + 1 would start past the last file. */
  lemma NextRoundPastEnd(n: nat, g: nat)
    requires g > 0
    ensures (n / g + 1) * g > n
  {
    var q := n / g;
    Euclid(n, g);
    assert (q + 1) * g == q * g + g;
  }

  /** The first r rounds take the files below min(r*g, n). */
  lemma {:induction false} FlattenRounds(n: nat, g: nat, r: nat)
    requires g > 0 && r <= |Schedule(n, g)|
    ensures Flatten(Schedule(n, g)[..r]) == Range(Min(r * g, n))
  {
    var s := Schedule(n, g);
    if r > 0 {
      FlattenRounds(n, g, r - 1);
      assert s[..r][..r - 1] == s[..r - 1];
      var start := (r - 1) * g;
      assert r * g == start + g;
      var round := s[r - 1];
      assert Flatten(s[..r]) == Range(Min(start, n)) + round;
      if start < n {
        assert Range(Min(start, n)) + round == Range(Min(r * g, n));
      } else {
        assert round == [];
      }
    }
  }

  /** The loop of handleErrors over one slot's errors, printing each in turn. */
  method PrintErrors(errors: Slice<Option<Error>>) returns (printed: seq<Error>)
    requires ErrorSliceOk(errors)
    ensures printed == Values(errors.Contents())
  {
    printed := [];
    ghost var vs := Values(errors.Contents());
    for j := 0 to errors.len
      invariant printed == vs[..j]
    {
      assert vs[..j + 1] == vs[..j] + [errors.backing[j].value];
      printed := printed + [errors.backing[j].value];
    }
    assert vs[..errors.len] == vs;
  }

  /** The statements of handleHTML before its deferred clearBuf, on the slot's slices. */
  method HandleSlot(env: Env, cwd: Bytes, outDirAbs: Bytes, moveToScript: bool, curFile: Bytes,
                    buf: Slice<byte>, errors: Slice<Option<Error>>, pairs: Slice<IdValuePair>)
    returns (r: Handled)
    requires ScanWellFormed(env)
    requires buf.Valid() && ErrorSliceOk(errors) && pairs.Valid()
    ensures r == Handle(env, cwd, outDirAbs, moveToScript, curFile, buf, errors, pairs)
  {
    var outputPath := AbsPathFitStructure(env, cwd, outDirAbs, curFile);
    var outputDir := env.dir(outputPath);
    var read := env.readFile(curFile);
    if read.Failure? {
      return Handled(buf, Append(errors, [Some(read.error)]), pairs, None);
    }
    var mk := env.mkdirAll(outputDir);
    if mk.Some? {
      return Handled(buf, Append(errors, [mk]), pairs, None);
    }
    assert WellFormedMatches(read.value, env.scan(read.value));
    r := TranslateSlot(env, outputPath, moveToScript, curFile, read.value, buf, errors, pairs);
  }

  /** The statements of handleHTML between reading the file and clearing
      the buffer, on the slot's slices. */
  method TranslateSlot(env: Env, outputPath: Bytes, moveToScript: bool, curFile: Bytes, inbuf: Bytes,
                       buf: Slice<byte>, errors: Slice<Option<Error>>, pairs: Slice<IdValuePair>)
    returns (r: Handled)
    requires WellFormedMatches(inbuf, env.scan(inbuf))
    requires buf.Valid() && ErrorSliceOk(errors) && pairs.Valid()
    ensures r == Translate(env, outputPath, moveToScript, curFile, inbuf, buf, errors, pairs)
  {
    var curDir := env.dir(curFile);
    var prior := pairs.Contents();
    var out, errs, allPairs := TranslateHTML(env, inbuf, curDir, moveToScript, [], [], prior);
    ghost var ms := env.scan(inbuf);
    assert out == DocOut(env, inbuf, ms, curDir, moveToScript, prior);
    assert errs == TagErrors(env, inbuf, ms, |ms|, curDir, moveToScript);
    var buf1 := Append(buf, out);
    var errors1 := Append(errors, Somes(errs));
    var pairs1 := pairs;
    assert allPairs[|prior|..] == TagPairs(env, inbuf, ms, |ms|, curDir, moveToScript);
    if moveToScript {
      pairs1 := Append(pairs, allPairs[|prior|..]);
    }
    var w := env.writeFile(outputPath, buf1.Contents());
    ghost var errorsBeforeWrite := errors1;
    if w.Some? {
      errors1 := Append(errors1, [w]);
    }
    r := Handled(buf1, errors1, pairs1, Some(buf1.Contents()));
    assert errors1 == Append(errorsBeforeWrite, if w.Some? then [w] else []);
  }

  // ---------------------------------------------------------------------
  // All slots together

  /** The settings every slot shares. */
  datatype Config = Config(env: Env, cwd: Bytes, outDirAbs: Bytes, moveToScript: bool, goCount: nat)

  /** bufs, errorSlices and pairSlices. */
  datatype Slots = Slots(bufs: seq<Slice<byte>>, errors: seq<Slice<Option<Error>>>, pairs: seq<Slice<IdValuePair>>)

  /** goCount error lists, goCount pair lists in script mode and none
      otherwise, at most goCount buffers, every one of them well formed. */
  predicate SlotsValid(c: Config, st: Slots)
  {
    && c.goCount > 0
    && |st.errors| == c.goCount
    && (if c.moveToScript then |st.pairs| == c.goCount else st.pairs == [])
    && |st.bufs| <= c.goCount
    && (forall i :: 0 <= i < |st.bufs| ==> st.bufs[i].Valid() && st.bufs[i].Cap() >= 1)
    && SlotsOk(st.errors)
    && (forall i :: 0 <= i < |st.pairs| ==> st.pairs[i].Valid())
  }

  /** The pairs handleHTML sees on a slot: its pair list in script mode, a nil slice otherwise. */
  function SlotPairs(c: Config, st: Slots, slot: nat): (p: Slice<IdValuePair>)
    requires SlotsValid(c, st) && slot < c.goCount
    ensures p.Valid()
  {
    if c.moveToScript then st.pairs[slot] else Slice([], 0)
  }

  /** handleHTML of one file on one slot. */
  function HandleOn(c: Config, st: Slots, file: Bytes, slot: nat): Handled
    requires ScanWellFormed(c.env) && SlotsValid(c, st) && slot < |st.bufs|
  {
    HandleFile(c.env, c.cwd, c.outDirAbs, c.moveToScript, file, st.bufs[slot], st.errors[slot], SlotPairs(c, st, slot))
  }

  /** The slots after handleHTML of `file` on `slot`. */
  function Step(c: Config, st: Slots, file: Bytes, slot: nat): (r: Slots)
    requires ScanWellFormed(c.env) && SlotsValid(c, st) && slot < |st.bufs|
    ensures SlotsValid(c, r) && |r.bufs| == |st.bufs|
  {
    var h := HandleOn(c, st, file, slot);
    Slots(st.bufs[slot := h.buf], st.errors[slot := h.errors],
          if c.moveToScript then st.pairs[slot := h.pairs] else st.pairs)
  }

  /** handleHTML on one slot leaves that slot as HandleFile says and
      touches no other slot, so the goroutines of a round, each on its own
      slot, can run in any order. */
  lemma StepTouchesOneSlot(c: Config, st: Slots, file: Bytes, slot: nat)
    requires ScanWellFormed(c.env) && SlotsValid(c, st) && slot < |st.bufs|
    ensures var r, h := Step(c, st, file, slot), HandleOn(c, st, file, slot);
      && r.bufs[slot] == h.buf && r.errors[slot] == h.errors && SlotPairs(c, r, slot) == h.pairs
      && (forall i :: 0 <= i < |st.bufs| && i != slot ==> r.bufs[i] == st.bufs[i])
      && (forall i :: 0 <= i < c.goCount && i != slot ==>
            r.errors[i] == st.errors[i] && SlotPairs(c, r, i) == SlotPairs(c, st, i))
  {
  }

  /** Handling two files on two different slots gives the same slots in
      either order. */
  lemma StepsCommute(c: Config, st: Slots, f1: Bytes, s1: nat, f2: Bytes, s2: nat)
    requires ScanWellFormed(c.env) && SlotsValid(c, st) && s1 < |st.bufs| && s2 < |st.bufs| && s1 != s2
    ensures Step(c, Step(c, st, f1, s1), f2, s2) == Step(c, Step(c, st, f2, s2), f1, s1)
  {
    var a, b := Step(c, st, f1, s1), Step(c, st, f2, s2);
    assert HandleOn(c, a, f2, s2) == HandleOn(c, st, f2, s2);
    assert HandleOn(c, b, f1, s1) == HandleOn(c, st, f1, s1);
  }

  /** handleErrors on the slots: every error list is truncated. */
  function Flush(c: Config, st: Slots): (r: Slots)
    requires SlotsValid(c, st)
    ensures SlotsValid(c, r) && r.bufs == st.bufs && r.pairs == st.pairs
  {
    st.(errors := TruncateAll(st.errors))
  }

  /** handleHTML of one file, given by its index, on one slot, as the
      dispatch loop sees it: the new slots and what was handed to os.WriteFile. */
  type Handler = (Slots, nat, nat) -> (Slots, Option<Bytes>)

  /** handleErrors, as the dispatch loop sees it: the new slots and what was printed. */
  type Flusher = Slots -> (Slots, seq<Error>)

  /** handleHTML of files[k] on well-formed slots.  The dispatch loop only
      ever calls it for a file of the list and a slot below len(bufs), so
      the second branch is never taken. */
  ghost function HandleStep(c: Config, files: seq<Bytes>): Handler
  {
    (st: Slots, k: nat, slot: nat) =>
      if ScanWellFormed(c.env) && SlotsValid(c, st) && k < |files| && slot < |st.bufs|
      then (Step(c, st, files[k], slot), HandleOn(c, st, files[k], slot).written)
      else (st, None)
  }

  /** handleErrors on well-formed slots: it prints what they hold, then truncates them. */
  ghost function FlushStep(c: Config): Flusher
  {
    (st: Slots) => if SlotsValid(c, st) then (Flush(c, st), Printed(st.errors, c.goCount)) else (st, [])
  }

  /** On well-formed slots, HandleStep is handleHTML. */
  lemma HandleStepIs(c: Config, files: seq<Bytes>, st: Slots, k: nat, slot: nat)
    requires ScanWellFormed(c.env) && SlotsValid(c, st) && k < |files| && slot < |st.bufs|
    ensures HandleStep(c, files)(st, k, slot) == (Step(c, st, files[k], slot), HandleOn(c, st, files[k], slot).written)
  {
  }

  /** On well-formed slots, FlushStep is handleErrors. */
  lemma FlushStepIs(c: Config, st: Slots)
    requires SlotsValid(c, st)
    ensures FlushStep(c)(st) == (Flush(c, st), Printed(st.errors, c.goCount))
  {
  }

  /** What the dispatch loop has done so far: the slots, what each handled
      file handed to os.WriteFile (in file order), and what each flush
      printed. */
  datatype Dispatched = Dispatched(slots: Slots, written: seq<Option<Bytes>>, flushes: seq<seq<Error>>)

  /** handleHTML of the first i files of a round, slot j taking the round's
      j-th file; nothing is flushed. */
  ghost function RoundFrom(h: Handler, d: Dispatched, round: seq<nat>, i: nat): (r: Dispatched)
    requires i <= |round|
    ensures |r.written| == |d.written| + i && r.flushes == d.flushes
    decreases i
  {
    if i == 0 then d
    else
      var prev := RoundFrom(h, d, round, i - 1);
      var (st, w) := h(prev.slots, round[i - 1], i - 1);
      Dispatched(st, prev.written + [w], prev.flushes)
  }

  /** handleErrors after what the loop has done. */
  ghost function FlushAll(fl: Flusher, d: Dispatched): (r: Dispatched)
    ensures r.written == d.written && |r.flushes| == |d.flushes| + 1
  {
    var (st, printed) := fl(d.slots);
    Dispatched(st, d.written, d.flushes + [printed])
  }

  /** How many files the first q rounds take. */
  function Count(rounds: seq<seq<nat>>, q: nat): nat
    requires q <= |rounds|
  {
    if q == 0 then 0 else Count(rounds, q - 1) + |rounds[q - 1]|
  }

  /** The first q rounds one after another, each followed by handleErrors. */
  ghost function Replay(h: Handler, fl: Flusher, d: Dispatched, rounds: seq<seq<nat>>, q: nat): (r: Dispatched)
    requires q <= |rounds|
    ensures |r.written| == |d.written| + Count(rounds, q) && |r.flushes| == |d.flushes| + q
    decreases q
  {
    if q == 0 then d
    else FlushAll(fl, RoundFrom(h, Replay(h, fl, d, rounds, q - 1), rounds[q - 1], |rounds[q - 1]|))
  }

  /** The r-th flush of the first q rounds prints what handleErrors prints
      for the slots as round r leaves them. */
  lemma {:induction false} ReplayFlushes(h: Handler, fl: Flusher, d: Dispatched, rounds: seq<seq<nat>>, q: nat, r: nat)
    requires r < q <= |rounds|
    ensures var ran := RoundFrom(h, Replay(h, fl, d, rounds, r), rounds[r], |rounds[r]|);
      Replay(h, fl, d, rounds, q).flushes[|d.flushes| + r] == fl(ran.slots).1
  {
    var last := RoundFrom(h, Replay(h, fl, d, rounds, q - 1), rounds[q - 1], |rounds[q - 1]|);
    assert Replay(h, fl, d, rounds, q).flushes == last.flushes + [fl(last.slots).1];
    if r < q - 1 {
      ReplayFlushes(h, fl, d, rounds, q - 1, r);
    }
  }

  /** Handling the rest of a round keeps what the first files wrote. */
  lemma {:induction false} RoundFromKeeps(h: Handler, d: Dispatched, round: seq<nat>, i: nat, p: nat)
    requires i <= |round| && p < |d.written|
    ensures RoundFrom(h, d, round, i).written[p] == d.written[p]
  {
    if i > 0 {
      RoundFromKeeps(h, d, round, i - 1, p);
    }
  }

  /** The j-th write of a round is what handleHTML of the round's j-th
      file on slot j wrote, on the slots the first j files left. */
  lemma {:induction false} RoundFromWrites(h: Handler, d: Dispatched, round: seq<nat>, i: nat, j: nat)
    requires j < i <= |round|
    ensures RoundFrom(h, d, round, i).written[|d.written| + j]
         == h(RoundFrom(h, d, round, j).slots, round[j], j).1
  {
    if j < i - 1 {
      RoundFromWrites(h, d, round, i - 1, j);
    }
  }

  /** Later rounds take no fewer files than earlier ones. */
  lemma {:induction false} CountMono(rounds: seq<seq<nat>>, q: nat, r: nat)
    requires q <= r <= |rounds|
    ensures Count(rounds, q) <= Count(rounds, r)
  {
    if q < r {
      CountMono(rounds, q, r - 1);
    }
  }

  /** Handling later rounds keeps what the earlier ones wrote. */
  lemma {:induction false} ReplayKeeps(h: Handler, fl: Flusher, d: Dispatched, rounds: seq<seq<nat>>, q: nat, p: nat)
    requires q <= |rounds| && p < |d.written|
    ensures Replay(h, fl, d, rounds, q).written[p] == d.written[p]
  {
    if q > 0 {
      var before := Replay(h, fl, d, rounds, q - 1);
      ReplayKeeps(h, fl, d, rounds, q - 1, p);
      RoundFromKeeps(h, before, rounds[q - 1], |rounds[q - 1]|, p);
    }
  }

  /** Over the first r rounds, the j-th file of round q is written at
      position Count(rounds, q) + j, with what handleHTML of that file on
      slot j wrote, on the slots the rounds before and the first j files
      of round q left. */
  lemma {:induction false} ReplayWrites(h: Handler, fl: Flusher, d: Dispatched, rounds: seq<seq<nat>>, r: nat, q: nat, j: nat)
    requires q < r <= |rounds| && j < |rounds[q]|
    ensures |d.written| + Count(rounds, q) + j < |Replay(h, fl, d, rounds, r).written|
    ensures Replay(h, fl, d, rounds, r).written[|d.written| + Count(rounds, q) + j]
         == h(RoundFrom(h, Replay(h, fl, d, rounds, q), rounds[q], j).slots, rounds[q][j], j).1
  {
    var before := Replay(h, fl, d, rounds, r - 1);
    var ran := RoundFrom(h, before, rounds[r - 1], |rounds[r - 1]|);
    var p := |d.written| + Count(rounds, q) + j;
    var w := h(RoundFrom(h, Replay(h, fl, d, rounds, q), rounds[q], j).slots, rounds[q][j], j).1;
    assert Replay(h, fl, d, rounds, r).written == ran.written;
    if q < r - 1 {
      CountMono(rounds, q + 1, r - 1);
      ReplayWrites(h, fl, d, rounds, r - 1, q, j);
      assert before.written[p] == w;
      RoundFromKeeps(h, before, rounds[r - 1], |rounds[r - 1]|, p);
    } else {
      assert p == |before.written| + j;
      RoundFromWrites(h, before, rounds[q], |rounds[q]|, j);
      assert ran.written[p] == w;
    }
  }

  /** `d` is what the first i files of a round leave, starting from `d0`. */
  ghost predicate InRound(h: Handler, d0: Dispatched, round: seq<nat>, i: nat, d: Dispatched)
  {
    i <= |round| && d == RoundFrom(h, d0, round, i)
  }

  /** handleHTML of the round's next file extends the round by one. */
  lemma RoundFromNext(h: Handler, d0: Dispatched, round: seq<nat>, i: nat, d: Dispatched, st: Slots, w: Option<Bytes>)
    requires InRound(h, d0, round, i, d) && i < |round|
    requires h(d.slots, round[i], i) == (st, w)
    ensures InRound(h, d0, round, i + 1, Dispatched(st, d.written + [w], d.flushes))
  {
  }

  /** `d` is what the first q rounds leave, starting from `d0`. */
  ghost predicate AfterRounds(h: Handler, fl: Flusher, d0: Dispatched, rounds: seq<seq<nat>>, q: nat, d: Dispatched)
  {
    q <= |rounds| && d == Replay(h, fl, d0, rounds, q)
  }

  /** `d` is what the first q rounds and then round q leave, starting
      from `d0`: round q awaits its flush. */
  ghost predicate RoundRan(h: Handler, fl: Flusher, d0: Dispatched, rounds: seq<seq<nat>>, q: nat, d: Dispatched)
  {
    q < |rounds| && InRound(h, Replay(h, fl, d0, rounds, q), rounds[q], |rounds[q]|, d)
  }

  /** Round q run after the first q rounds is RoundRan. */
  lemma RoundRanAfter(h: Handler, fl: Flusher, d0: Dispatched, rounds: seq<seq<nat>>, q: nat, d: Dispatched, e: Dispatched)
    requires AfterRounds(h, fl, d0, rounds, q, d) && q < |rounds| && InRound(h, d, rounds[q], |rounds[q]|, e)
    ensures RoundRan(h, fl, d0, rounds, q, e)
  {
  }

  /** handleErrors after round q extends the rounds by one. */
  lemma NextRound(h: Handler, fl: Flusher, d0: Dispatched, rounds: seq<seq<nat>>, q: nat,
                  e: Dispatched, st: Slots, printed: seq<Error>)
    requires RoundRan(h, fl, d0, rounds, q, e) && fl(e.slots) == (st, printed)
    ensures AfterRounds(h, fl, d0, rounds, q + 1, Dispatched(st, e.written, e.flushes + [printed]))
  {
  }

  /** handleHTML keeps the slots well formed. */
  lemma {:induction false} RoundFromValid(c: Config, files: seq<Bytes>, d: Dispatched, round: seq<nat>, i: nat)
    requires SlotsValid(c, d.slots) && i <= |round|
    ensures var r := RoundFrom(HandleStep(c, files), d, round, i);
      SlotsValid(c, r.slots) && |r.slots.bufs| == |d.slots.bufs|
  {
    if i > 0 {
      RoundFromValid(c, files, d, round, i - 1);
    }
  }

  /** Rounds of handleHTML and handleErrors keep the slots well formed. */
  lemma {:induction false} ReplayValid(c: Config, files: seq<Bytes>, d: Dispatched, rounds: seq<seq<nat>>, q: nat)
    requires SlotsValid(c, d.slots) && q <= |rounds|
    ensures var r := Replay(HandleStep(c, files), FlushStep(c), d, rounds, q);
      SlotsValid(c, r.slots) && |r.slots.bufs| == |d.slots.bufs|
  {
    if q > 0 {
      ReplayValid(c, files, d, rounds, q - 1);
      RoundFromValid(c, files, Replay(HandleStep(c, files), FlushStep(c), d, rounds, q - 1), rounds[q - 1], |rounds[q - 1]|);
    }
  }

  /** The first q rounds take as many files as they list one after another. */
  lemma {:induction false} CountFlatten(rounds: seq<seq<nat>>, q: nat)
    requires q <= |rounds|
    ensures Count(rounds, q) == |Flatten(rounds[..q])|
  {
    if q > 0 {
      CountFlatten(rounds, q - 1);
      assert rounds[..q][..q - 1] == rounds[..q - 1];
    }
  }

  /** The whole dispatch loop of main: the rounds of the schedule, each
      followed by handleErrors. */
  ghost function DispatchAll(c: Config, st0: Slots, files: seq<Bytes>): (d: Dispatched)
    requires c.goCount > 0
    ensures |d.flushes| == |files| / c.goCount + 1
  {
    var s := Schedule(|files|, c.goCount);
    Replay(HandleStep(c, files), FlushStep(c), Dispatched(st0, [], []), s, |s|)
  }

  /** The dispatch loop has one write result per file. */
  lemma DispatchWritesEveryFile(c: Config, st0: Slots, files: seq<Bytes>)
    requires c.goCount > 0
    ensures |DispatchAll(c, st0, files).written| == |files|
  {
    var s := Schedule(|files|, c.goCount);
    FlattenSchedule(|files|, c.goCount);
    CountFlatten(s, |s|);
    assert s[..|s|] == s;
  }

  /** The slots as the dispatch loop hands file k to handleHTML: after
      the rounds before k's and the files of k's round before it. */
  ghost function SlotsBefore(c: Config, st0: Slots, files: seq<Bytes>, k: nat): Slots
    requires c.goCount > 0 && k < |files|
  {
    ScheduleDispatchesFile(|files|, c.goCount, k);
    var s := Schedule(|files|, c.goCount);
    var before := Replay(HandleStep(c, files), FlushStep(c), Dispatched(st0, [], []), s, k / c.goCount);
    RoundFrom(HandleStep(c, files), before, s[k / c.goCount], k % c.goCount).slots
  }

  /** The first q rounds of the schedule take q*g files, when they are full. */
  lemma CountFullRounds(n: nat, g: nat, q: nat)
    requires g > 0 && q * g <= n && q < |Schedule(n, g)|
    ensures Count(Schedule(n, g), q) == q * g
  {
    var s := Schedule(n, g);
    CountFlatten(s, q);
    FlattenRounds(n, g, q);
  }

  /** handleHTML of file k finds well-formed slots, and its slot k mod
      goCount has a buffer. */
  lemma SlotsBeforeValid(c: Config, st0: Slots, files: seq<Bytes>, k: nat)
    requires SlotsValid(c, st0) && |st0.bufs| == Min(|files|, c.goCount) && k < |files|
    ensures SlotsValid(c, SlotsBefore(c, st0, files, k)) && k % c.goCount < |SlotsBefore(c, st0, files, k).bufs|
  {
    var s := Schedule(|files|, c.goCount);
    var d0 := Dispatched(st0, [], []);
    var q := k / c.goCount;
    ScheduleDispatchesFile(|files|, c.goCount, k);
    Euclid(k, c.goCount);
    ReplayValid(c, files, d0, s, q);
    RoundFromValid(c, files, Replay(HandleStep(c, files), FlushStep(c), d0, s, q), s[q], k % c.goCount);
  }

  /** Entry k of what the dispatch loop writes is what its handler wrote
      for file k on slot k mod goCount. */
  lemma DispatchWritesStep(c: Config, st0: Slots, files: seq<Bytes>, k: nat)
    requires ScanWellFormed(c.env) && SlotsValid(c, st0) && |st0.bufs| == Min(|files|, c.goCount) && k < |files|
    ensures k < |DispatchAll(c, st0, files).written|
    ensures DispatchAll(c, st0, files).written[k]
         == HandleStep(c, files)(SlotsBefore(c, st0, files, k), k, k % c.goCount).1
  {
    var n, g := |files|, c.goCount;
    var s := Schedule(n, g);
    var h := HandleStep(c, files);
    var d0 := Dispatched(st0, [], []);
    var q, j := k / g, k % g;
    SlotsBeforeValid(c, st0, files, k);
    ScheduleDispatchesFile(n, g, k);
    Euclid(k, g);
    CountFullRounds(n, g, q);
    ReplayWrites(h, FlushStep(c), d0, s, |s|, q, j);
    var st := SlotsBefore(c, st0, files, k);
    assert st == RoundFrom(h, Replay(h, FlushStep(c), d0, s, q), s[q], j).slots;
  }

  /** Entry k of what the dispatch loop writes is what handleHTML of
      files[k] on slot k mod goCount hands to os.WriteFile, on the slots
      that the files before it in the schedule left. */
  lemma DispatchWritesFile(c: Config, st0: Slots, files: seq<Bytes>, k: nat)
    requires ScanWellFormed(c.env) && SlotsValid(c, st0) && |st0.bufs| == Min(|files|, c.goCount) && k < |files|
    ensures SlotsValid(c, SlotsBefore(c, st0, files, k)) && k % c.goCount < |SlotsBefore(c, st0, files, k).bufs|
    ensures k < |DispatchAll(c, st0, files).written|
    ensures DispatchAll(c, st0, files).written[k]
         == HandleOn(c, SlotsBefore(c, st0, files, k), files[k], k % c.goCount).written
  {
    SlotsBeforeValid(c, st0, files, k);
    DispatchWritesStep(c, st0, files, k);
    HandleStepIs(c, files, SlotsBefore(c, st0, files, k), k, k % c.goCount);
  }

  /** What the slots hold once round r of the dispatch loop has run, before its flush. */
  ghost function AfterRound(c: Config, st0: Slots, files: seq<Bytes>, r: nat): Slots
    requires c.goCount > 0 && r <= |files| / c.goCount
  {
    var s := Schedule(|files|, c.goCount);
    var before := Replay(HandleStep(c, files), FlushStep(c), Dispatched(st0, [], []), s, r);
    RoundFrom(HandleStep(c, files), before, s[r], |s[r]|).slots
  }

  /** The r-th flush of the dispatch loop prints every error that the
      slots hold once round r has run, slot by slot. */
  lemma DispatchFlushes(c: Config, st0: Slots, files: seq<Bytes>, r: nat)
    requires SlotsValid(c, st0) && r <= |files| / c.goCount
    ensures SlotsValid(c, AfterRound(c, st0, files, r))
    ensures DispatchAll(c, st0, files).flushes[r] == Printed(AfterRound(c, st0, files, r).errors, c.goCount)
  {
    var s := Schedule(|files|, c.goCount);
    var h, fl := HandleStep(c, files), FlushStep(c);
    var d0 := Dispatched(st0, [], []);
    ReplayFlushes(h, fl, d0, s, |s|, r);
    ReplayValid(c, files, d0, s, r);
    RoundFromValid(c, files, Replay(h, fl, d0, s, r), s[r], |s[r]|);
    FlushStepIs(c, AfterRound(c, st0, files, r));
  }

  /** An empty round runs nothing, so its flush comes straight after the
      previous round's flush. */
  lemma EmptyRoundFlushesAgain(h: Handler, fl: Flusher, d: Dispatched, rounds: seq<seq<nat>>, q: nat)
    requires 0 < q < |rounds| && rounds[q] == []
    ensures var ran := RoundFrom(h, Replay(h, fl, d, rounds, q - 1), rounds[q - 1], |rounds[q - 1]|);
      Replay(h, fl, d, rounds, |rounds|).flushes[|d.flushes| + q] == fl(fl(ran.slots).0).1
  {
    ReplayFlushes(h, fl, d, rounds, |rounds|, q);
  }

  /** handleErrors twice in a row: the second prints each non-empty
      slot's first error again. */
  lemma FlushTwice(c: Config, st: Slots)
    requires SlotsValid(c, st)
    ensures FlushStep(c)(FlushStep(c)(st).0).1 == FirstErrors(st.errors, c.goCount)
  {
    FlushStepIs(c, st);
    FlushStepIs(c, Flush(c, st));
    FlushReprintsFirstErrors(st.errors, c.goCount);
  }

  /** A flush after an empty round of the dispatch loop is handleErrors
      run a second time on the slots as the round before left them. */
  lemma FlushAfterEmptyRound(c: Config, st0: Slots, files: seq<Bytes>, q: nat)
    requires c.goCount > 0 && 0 < q <= |files| / c.goCount && Schedule(|files|, c.goCount)[q] == []
    ensures var fl := FlushStep(c);
      DispatchAll(c, st0, files).flushes[q] == fl(fl(AfterRound(c, st0, files, q - 1)).0).1
  {
    var s := Schedule(|files|, c.goCount);
    EmptyRoundFlushesAgain(HandleStep(c, files), FlushStep(c), Dispatched(st0, [], []), s, q);
  }

  /** When n files fill whole rounds of g, the last round of the schedule is empty. */
  lemma WholeRoundsEndEmpty(n: nat, g: nat)
    requires g > 0 && n > 0 && n % g == 0
    ensures n / g > 0 && Schedule(n, g)[n / g] == []
  {
    var q := n / g;
    Euclid(n, g);
    assert q * g == n;
  }

  /** When the files fill whole rounds, the last round is empty, so the
      final flush comes straight after the previous one and prints each
      non-empty slot's first error once more. */
  lemma FinalFlushRepeats(c: Config, st0: Slots, files: seq<Bytes>)
    requires SlotsValid(c, st0) && |files| > 0 && |files| % c.goCount == 0
    ensures var q := |files| / c.goCount;
      && q > 0 && SlotsValid(c, AfterRound(c, st0, files, q - 1))
      && DispatchAll(c, st0, files).flushes[q]
         == FirstErrors(AfterRound(c, st0, files, q - 1).errors, c.goCount)
  {
    var q := |files| / c.goCount;
    WholeRoundsEndEmpty(|files|, c.goCount);
    DispatchFlushes(c, st0, files, q - 1);
    FlushAfterEmptyRound(c, st0, files, q);
    FlushTwice(c, AfterRound(c, st0, files, q - 1));
  }

  // ---------------------------------------------------------------------
  // The scratch state

  class Scratch {
    const env: Env
    const goCount: nat
    const moveToScript: bool
    const cwd: Bytes
    const outDirAbs: Bytes
    /** bufs: one output buffer per slot that is ever used */
    var bufs: seq<Slice<byte>>
    /** errorSlices: one error list per slot */
    var errorSlices: seq<Slice<Option<Error>>>
    /** pairSlices: one pair list per slot in script mode, nil otherwise */
    var pairSlices: seq<Slice<IdValuePair>>

    function Cfg(): Config
    {
      Config(env, cwd, outDirAbs, moveToScript, goCount)
    }

    function State(): Slots
      reads this
    {
      Slots(bufs, errorSlices, pairSlices)
    }

    predicate Valid()
      reads this
    {
      SlotsValid(Cfg(), State())
    }

    /** The initialisation in main: goCount error lists and, in script mode,
        goCount pair lists of capacity 16, and min(fileCount, goCount)
        buffers of capacity 2 MiB, all empty. */
    constructor (env: Env, goCount: nat, moveToScript: bool, cwd: Bytes, outDirAbs: Bytes, fileCount: nat)
      requires goCount > 0
      ensures Valid()
      ensures this.env == env && this.goCount == goCount && this.moveToScript == moveToScript
      ensures this.cwd == cwd && this.outDirAbs == outDirAbs
      ensures |bufs| == Min(fileCount, goCount) && forall i :: 0 <= i < |bufs| ==> bufs[i] == Make(ZERO_BYTE, BUF_DEFAULT_CAP)
      ensures forall i :: 0 <= i < goCount ==> errorSlices[i] == Make(NIL_ERROR, LIST_DEFAULT_CAP)
      ensures moveToScript ==> forall i :: 0 <= i < goCount ==> pairSlices[i] == Make(ZERO_PAIR, LIST_DEFAULT_CAP)
    {
      this.env := env;
      this.goCount := goCount;
      this.moveToScript := moveToScript;
      this.cwd := cwd;
      this.outDirAbs := outDirAbs;
      var es := Init2D(goCount, LIST_DEFAULT_CAP, NIL_ERROR);
      errorSlices := es;
      var ps := [];
      if moveToScript {
        ps := Init2D(goCount, LIST_DEFAULT_CAP, ZERO_PAIR);
      }
      pairSlices := ps;
      var bs := Init2D(Min(fileCount, goCount), BUF_DEFAULT_CAP, ZERO_BYTE);
      bufs := bs;
    }

    /** clearBuf: the slot's buffer is cut back to its first byte. */
    method ClearBuf(rId: nat)
      requires Valid() && rId < |bufs|
      modifies this
      ensures Valid()
      ensures bufs == old(bufs)[rId := Reslice(old(bufs)[rId], 1)]
      ensures errorSlices == old(errorSlices) && pairSlices == old(pairSlices)
    {
      bufs := bufs[rId := Reslice(bufs[rId], 1)];
    }

    /** handleErrors: prints every error of every slot in slot order, then
        cuts every non-empty list back to its first error. */
    method HandleErrors() returns (printed: seq<Error>)
      requires Valid()
      modifies this
      ensures Valid()
      ensures printed == Printed(old(errorSlices), goCount)
      ensures State() == Flush(Cfg(), old(State()))
    {
      ghost var es := errorSlices;
      printed := [];
      for i := 0 to goCount
        invariant |errorSlices| == goCount && bufs == old(bufs) && pairSlices == old(pairSlices)
        invariant forall j :: 0 <= j < i ==> errorSlices[j] == Truncate(es[j])
        invariant forall j :: i <= j < goCount ==> errorSlices[j] == es[j]
        invariant printed == Printed(es, i)
      {
        var errors := errorSlices[i];
        if errors.len == 0 {
          continue;
        }
        var slotPrinted := PrintErrors(errors);
        printed := printed + slotPrinted;
        errorSlices := errorSlices[i := Reslice(errors, 1)];
      }
      assert errorSlices == TruncateAll(es);
    }

    /** handleHTML for the file `curFile` on slot `rId`: the slot ends as
        HandleFile says, and no other slot changes. */
    method HandleHTML(curFile: Bytes, rId: nat) returns (written: Option<Bytes>)
      requires Valid() && rId < |bufs| && ScanWellFormed(env)
      modifies this
      ensures Valid()
      ensures State() == Step(Cfg(), old(State()), curFile, rId)
      ensures written == HandleOn(Cfg(), old(State()), curFile, rId).written
    {
      var h := HandleSlot(env, cwd, outDirAbs, moveToScript, curFile, bufs[rId], errorSlices[rId], SlotPairs(Cfg(), State(), rId));
      bufs := bufs[rId := h.buf];
      errorSlices := errorSlices[rId := h.errors];
      if moveToScript {
        pairSlices := pairSlices[rId := h.pairs];
      }
      written := h.written;
      // deferred in the source
      ClearBuf(rId);
    }

    /** The dispatch loop of main: rounds of goCount files, slot i taking
        the i-th file of the round, errors flushed after every full round;
        the last, partial round jumps straight to the final flush, which
        also follows a last full round.  So the slots, what was written and
        what was printed are DispatchAll of the files. */
    method Run(files: seq<Bytes>) returns (flushes: seq<seq<Error>>, written: seq<Option<Bytes>>)
      requires Valid() && |bufs| == Min(|files|, goCount) && ScanWellFormed(env)
      modifies this
      ensures Valid()
      ensures Dispatched(State(), written, flushes) == DispatchAll(Cfg(), old(State()), files)
    {
      ghost var d0 := Dispatched(State(), [], []);
      var jumped;
      flushes, written, jumped := Rounds(files);
      ghost var q := |flushes|;
      if !jumped {
        RoundRanAfter(HandleStep(Cfg(), files), FlushStep(Cfg()), d0, Schedule(|files|, goCount), q,
                      Dispatched(State(), written, flushes), Dispatched(State(), written, flushes));
      }
      // out:
      flushes := FlushRound(files, d0, q, written, flushes);
    }

    /** The outer loop of the dispatch up to the label `out`: whole rounds
        each followed by handleErrors, until the files run out, either at a
        round's end or, by the jump, inside a round.  Round q = n div g is
        then the one awaiting the final flush: empty at a round's end,
        partial after the jump. */
    method Rounds(files: seq<Bytes>) returns (flushes: seq<seq<Error>>, written: seq<Option<Bytes>>, jumped: bool)
      requires Valid() && |bufs| == Min(|files|, goCount) && ScanWellFormed(env)
      modifies this
      ensures Valid() && |flushes| == |files| / goCount
      ensures var h, fl, s := HandleStep(Cfg(), files), FlushStep(Cfg()), Schedule(|files|, goCount);
        var d0, d := old(Dispatched(State(), [], [])), Dispatched(State(), written, flushes);
        if jumped then RoundRan(h, fl, d0, s, |flushes|, d)
        else AfterRounds(h, fl, d0, s, |flushes|, d) && s[|flushes|] == []
    {
      ghost var h, fl := HandleStep(Cfg(), files), FlushStep(Cfg());
      ghost var d0 := Dispatched(State(), [], []);
      ghost var s := Schedule(|files|, goCount);
      var processed := 0;
      var total := |files|;
      flushes, written := [], [];
      jumped := false;
      while processed < total
        invariant Valid() && |bufs| == Min(total, goCount)
        invariant processed <= total && processed == |flushes| * goCount && |flushes| <= total / goCount
        invariant !jumped
        invariant AfterRounds(h, fl, d0, s, |flushes|, Dispatched(State(), written, flushes))
        decreases total - processed
      {
        ghost var q := |flushes|;
        processed, jumped, written, flushes := Round(files, processed, q, d0, written, flushes);
        if jumped {
          LastRound(q, goCount, total);
          // goto out
          return;
        }
        RoundsArith(q + 1, goCount);
        MulLeDiv(q + 1, goCount, total);
      }
      LastRound(|flushes|, goCount, total);
      assert s[|flushes|] == [];
    }

    /** One pass of the outer dispatch loop, round q: the inner loop, then,
        unless it jumped out because the files ran out, handleErrors.  The
        flushes then stand for the first q + 1 rounds; after a jump they are
        unchanged and round q awaits its flush. */
    method Round(files: seq<Bytes>, start: nat, ghost q: nat, ghost d0: Dispatched,
                 written0: seq<Option<Bytes>>, flushes0: seq<seq<Error>>)
      returns (processed: nat, jumped: bool, written: seq<Option<Bytes>>, flushes: seq<seq<Error>>)
      requires Valid() && |bufs| == Min(|files|, goCount) && ScanWellFormed(env)
      requires start < |files| && start == q * goCount
      requires AfterRounds(HandleStep(Cfg(), files), FlushStep(Cfg()), d0, Schedule(|files|, goCount), q,
                           Dispatched(State(), written0, flushes0))
      modifies this
      ensures Valid() && |bufs| == Min(|files|, goCount)
      ensures jumped <==> |files| - start < goCount
      ensures processed == if jumped then |files| else start + goCount
      ensures jumped ==> flushes == flushes0 && RoundRan(HandleStep(Cfg(), files), FlushStep(Cfg()), d0,
                           Schedule(|files|, goCount), q, Dispatched(State(), written, flushes))
      ensures !jumped ==> |flushes| == |flushes0| + 1 && AfterRounds(HandleStep(Cfg(), files), FlushStep(Cfg()), d0,
                            Schedule(|files|, goCount), q + 1, Dispatched(State(), written, flushes))
    {
      ghost var h, fl, s := HandleStep(Cfg(), files), FlushStep(Cfg()), Schedule(|files|, goCount);
      ghost var before := Dispatched(State(), written0, flushes0);
      processed, jumped, written := RunRound(files, start, q, written0, flushes0);
      MulLeDiv(q, goCount, |files|);
      assert s[q] == RoundFiles(|files|, goCount, q);
      RoundRanAfter(h, fl, d0, s, q, before, Dispatched(State(), written, flushes0));
      flushes := flushes0;
      if !jumped {
        flushes := FlushRound(files, d0, q, written, flushes);
      }
    }

    /** handleErrors at the end of round q of the dispatch loop: what the
        loop has done is then the first q + 1 rounds. */
    method FlushRound(ghost files: seq<Bytes>, ghost d0: Dispatched, ghost q: nat,
                      written: seq<Option<Bytes>>, flushes: seq<seq<Error>>) returns (flushed: seq<seq<Error>>)
      requires Valid()
      requires RoundRan(HandleStep(Cfg(), files), FlushStep(Cfg()), d0, Schedule(|files|, goCount), q,
                        Dispatched(State(), written, flushes))
      modifies this
      ensures Valid() && bufs == old(bufs) && |flushed| == |flushes| + 1
      ensures AfterRounds(HandleStep(Cfg(), files), FlushStep(Cfg()), d0, Schedule(|files|, goCount), q + 1,
                          Dispatched(State(), written, flushed))
    {
      ghost var e := Dispatched(State(), written, flushes);
      FlushStepIs(Cfg(), State());
      var printed := HandleErrors();
      NextRound(HandleStep(Cfg(), files), FlushStep(Cfg()), d0, Schedule(|files|, goCount), q, e, State(), printed);
      flushed := flushes + [printed];
    }

    /** One round of the dispatch loop, round q of the schedule: slot i
        takes file start+i; when the files run out before the round is
        full, the round reports the jump to the final flush. */
    method RunRound(files: seq<Bytes>, start: nat, ghost q: nat,
                    written0: seq<Option<Bytes>>, ghost flushes: seq<seq<Error>>)
      returns (processed: nat, jumped: bool, written: seq<Option<Bytes>>)
      requires Valid() && |bufs| == Min(|files|, goCount) && ScanWellFormed(env)
      requires start < |files| && start == q * goCount
      modifies this
      ensures Valid() && |bufs| == Min(|files|, goCount)
      ensures jumped <==> |files| - start < goCount
      ensures processed == if jumped then |files| else start + goCount
      ensures var round := RoundFiles(|files|, goCount, q);
        InRound(HandleStep(Cfg(), files), old(Dispatched(State(), written0, flushes)), round, |round|,
                Dispatched(State(), written, flushes))
    {
      ghost var h := HandleStep(Cfg(), files);
      ghost var d0 := Dispatched(State(), written0, flushes);
      ghost var round := RoundFiles(|files|, goCount, q);
      RoundFilesShape(|files|, goCount, q, start);
      processed, written := start, written0;
      var total := |files|;
      for i := 0 to goCount
        invariant Valid() && |bufs| == Min(total, goCount)
        invariant processed == start + i && processed <= total
        invariant InRound(h, d0, round, i, Dispatched(State(), written, flushes))
      {
        if processed == total {
          assert i == |round|;
          return processed, true, written;
        }
        assert round[i] == processed;
        written := HandleInRound(files, d0, round, i, processed, written, flushes);
        processed := processed + 1;
      }
      assert goCount == |round|;
      jumped := false;
    }

    /** `go handleHTML(htmls[k], i)` for the i-th file of a round: the
        round so far extends by that file. */
    method HandleInRound(files: seq<Bytes>, ghost d0: Dispatched, ghost round: seq<nat>, i: nat, k: nat,
                         written0: seq<Option<Bytes>>, ghost flushes: seq<seq<Error>>)
      returns (written: seq<Option<Bytes>>)
      requires Valid() && ScanWellFormed(env) && i < |bufs| && k < |files|
      requires i < |round| && round[i] == k
      requires InRound(HandleStep(Cfg(), files), d0, round, i, Dispatched(State(), written0, flushes))
      modifies this
      ensures Valid() && |bufs| == old(|bufs|)
      ensures InRound(HandleStep(Cfg(), files), d0, round, i + 1, Dispatched(State(), written, flushes))
    {
      ghost var d := Dispatched(State(), written0, flushes);
      HandleStepIs(Cfg(), files, State(), k, i);
      var w := HandleHTML(files[k], i);
      RoundFromNext(HandleStep(Cfg(), files), d0, round, i, d, State(), w);
      written := written0 + [w];
    }
  }
}


