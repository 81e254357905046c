/** translateImgTag and translateSrc: the rewrite of one `<img>` match.

    A match is what the scanning expression reports for one tag: its 14
    submatch indices.  Entries 0 and 1 are the span [start, end) of the whole
    tag; each of the three attribute slots then holds four entries, the span
    of the attribute name and the span of its value, where the value's end is
    the offset of its closing quote.  A slot whose group did not take part in
    the match holds -1, and only the slots before the first unset one are
    read. */
module ImgTag {
  import opened Wrappers
  import opened Bytes
  import opened Oracles
  import opened Paths

  const INTS_PER_TAG_NAME := 2
  const INTS_PER_TAG_ATTR := 4
  const ATTRS_PER_IMG := 3
  const INTS_PER_IMG := INTS_PER_TAG_NAME + ATTRS_PER_IMG * INTS_PER_TAG_ATTR

  const SRC: Bytes := [115, 114, 99]  // "src"
  const ID: Bytes := [105, 100]  // "id"
  const NO_HBIMG: Bytes := [100, 97, 116, 97, 45, 110, 111, 45, 104, 98, 105, 109, 103]  // "data-no-hbimg"
  const TRUE: Bytes := [116, 114, 117, 101]  // "true"
  const SRC_OPEN: Bytes := [32, 115, 114, 99, 61, 34]  // " src=\""
  const ID_OPEN: Bytes := [32, 105, 100, 61, 34]  // " id=\""
  const EQ_QUOTE: Bytes := [61, 34]  // "=\""
  const QUOTE: Bytes := [34]  // "\""
  const DATA_IMAGE: Bytes := [100, 97, 116, 97, 58, 105, 109, 97, 103, 101, 47]  // "data:image/"
  const BASE64_MARK: Bytes := [59, 98, 97, 115, 101, 54, 52, 44]  // ";base64,"

  // ---------------------------------------------------------------------
  // The layout of a match

  function NameStart(m: seq<int>, j: nat): int
    requires |m| == INTS_PER_IMG && j < ATTRS_PER_IMG
  {
    m[INTS_PER_TAG_NAME + INTS_PER_TAG_ATTR * j]
  }

  function NameEnd(m: seq<int>, j: nat): int
    requires |m| == INTS_PER_IMG && j < ATTRS_PER_IMG
  {
    m[INTS_PER_TAG_NAME + INTS_PER_TAG_ATTR * j + 1]
  }

  function ValStart(m: seq<int>, j: nat): int
    requires |m| == INTS_PER_IMG && j < ATTRS_PER_IMG
  {
    m[INTS_PER_TAG_NAME + INTS_PER_TAG_ATTR * j + 2]
  }

  /** The offset of the closing quote of slot `j`'s value. */
  function ValEnd(m: seq<int>, j: nat): int
    requires |m| == INTS_PER_IMG && j < ATTRS_PER_IMG
  {
    m[INTS_PER_TAG_NAME + INTS_PER_TAG_ATTR * j + 3]
  }

  /** The number of slots before the first unset one: the slots the loops visit. */
  function SetSlots(m: seq<int>): (k: nat)
    requires |m| == INTS_PER_IMG
    ensures k <= ATTRS_PER_IMG
    ensures forall j: nat :: j < k ==> NameStart(m, j) != -1
    ensures k < ATTRS_PER_IMG ==> NameStart(m, k) == -1
  {
    if m[2] == -1 then 0 else if m[6] == -1 then 1 else if m[10] == -1 then 2 else 3
  }

  /** What the scanner guarantees of one match: the set slots lie in order
      inside the tag, each name before its value, each value's closing quote
      before the next name and before the tag's end. */
  predicate ValidSlots(inbuf: Bytes, m: seq<int>)
  {
    && |m| == INTS_PER_IMG
    && 0 <= m[0] <= m[1] <= |inbuf|
    && (forall j: nat :: j < SetSlots(m) ==>
          m[0] <= NameStart(m, j) <= NameEnd(m, j) <= ValStart(m, j) <= ValEnd(m, j) < m[1])
    && (forall j: nat :: 0 < j < SetSlots(m) ==> ValEnd(m, j - 1) < NameStart(m, j))
  }

  function Name(inbuf: Bytes, m: seq<int>, j: nat): Bytes
    requires ValidSlots(inbuf, m) && j < SetSlots(m)
  {
    inbuf[NameStart(m, j)..NameEnd(m, j)]
  }

  function Value(inbuf: Bytes, m: seq<int>, j: nat): Bytes
    requires ValidSlots(inbuf, m) && j < SetSlots(m)
  {
    inbuf[ValStart(m, j)..ValEnd(m, j)]
  }

  /** Where copying resumes before slot `j` (or, for j == SetSlots(m), before
      the rest of the tag): just past the previous value's closing quote. */
  function SlotStart(m: seq<int>, j: nat): int
    requires |m| == INTS_PER_IMG && j <= SetSlots(m)
  {
    if j == 0 then m[0] else ValEnd(m, j - 1) + 1
  }

  /** Set slot `j` is `data-no-hbimg` with the value `true`. */
  predicate SuppressesAt(inbuf: Bytes, m: seq<int>, j: nat)
    requires ValidSlots(inbuf, m) && j < SetSlots(m)
  {
    Name(inbuf, m, j) == NO_HBIMG && Value(inbuf, m, j) == TRUE
  }

  /** Some set slot is `data-no-hbimg` with the value `true`, before or after any `src`. */
  predicate Suppressed(inbuf: Bytes, m: seq<int>)
    requires ValidSlots(inbuf, m)
  {
    exists j: nat :: j < SetSlots(m) && SuppressesAt(inbuf, m, j)
  }

  /** The last of the first `k` set slots whose name is `name`. */
  function LastSlotNamed(inbuf: Bytes, m: seq<int>, k: nat, name: Bytes): (r: Option<nat>)
    requires ValidSlots(inbuf, m) && k <= SetSlots(m)
    ensures r.Some? ==> r.value < k && Name(inbuf, m, r.value) == name
    ensures r.Some? ==> forall j: nat :: r.value < j < k ==> Name(inbuf, m, j) != name
    ensures r.None? ==> forall j: nat :: j < k ==> Name(inbuf, m, j) != name
  {
    if k == 0 then None
    else if Name(inbuf, m, k - 1) == name then Some(k - 1)
    else LastSlotNamed(inbuf, m, k - 1, name)
  }

  // ---------------------------------------------------------------------
  // translateSrc

  /** The data URI built from a sniffed format and the base64 text. */
  function DataUri(format: Bytes, encoded: Bytes): Bytes
  {
    DATA_IMAGE + format + BASE64_MARK + encoded
  }

  /** The image bytes behind a `src` value: a request URI is fetched, else a
      valid path is read relative to the document's directory, else the
      value is refused. */
  function Fetch(env: Env, src: Bytes, curDir: Bytes): Result<Bytes, Error>
  {
    if env.isRequestUri(src) then env.getUrl(src)
    else if env.validPath(src) then env.readImg(FullPath(env, curDir, src))
    else Failure(NotUrlNorPath)
  }

  /** What translateSrc appends, and the error it returns. */
  datatype Resolution = Resolution(bytes: Bytes, err: Option<Error>)

  function Resolve(env: Env, src: Bytes, curDir: Bytes): (r: Resolution)
    ensures r.err.Some? ==> r.bytes == src
    ensures Fetch(env, src, curDir).Failure? ==> r.err == Some(Fetch(env, src, curDir).error)
    ensures Fetch(env, src, curDir).Success? && env.sniff(Fetch(env, src, curDir).value).Failure? ==>
      r.err == Some(env.sniff(Fetch(env, src, curDir).value).error)
    ensures r.err.None? <==> Fetch(env, src, curDir).Success? && env.sniff(Fetch(env, src, curDir).value).Success?
    ensures r.err.None? ==>
      var img := Fetch(env, src, curDir).value;
      r.bytes == DataUri(env.sniff(img).value, env.base64(img))
  {
    match Fetch(env, src, curDir)
    case Failure(e) => Resolution(src, Some(e))
    case Success(img) =>
      match env.sniff(img)
      case Failure(e) => Resolution(src, Some(e))
      case Success(format) => Resolution(DataUri(format, env.base64(img)), None)
  }

  /** translateSrc: on every failure the original `src` bytes are appended
      and the failure returned; on success the data URI is appended. */
  method TranslateSrc(env: Env, outbuf: Bytes, srcBytes: Bytes, curDir: Bytes) returns (out: Bytes, err: Option<Error>)
    ensures out == outbuf + Resolve(env, srcBytes, curDir).bytes
    ensures err == Resolve(env, srcBytes, curDir).err
    ensures env.isRequestUri(srcBytes) && env.getUrl(srcBytes).Failure? ==>
      err == Some(env.getUrl(srcBytes).error) && out == outbuf + srcBytes
    ensures !env.isRequestUri(srcBytes) && !env.validPath(srcBytes) ==>
      err == Some(NotUrlNorPath) && out == outbuf + srcBytes
  {
    var imgbuf: Bytes;
    if env.isRequestUri(srcBytes) {
      var fetched := env.getUrl(srcBytes);
      if fetched.Failure? {
        out, err := outbuf + srcBytes, Some(fetched.error);
        return;
      }
      imgbuf := fetched.value;
    } else if env.validPath(srcBytes) {
      var read := env.readImg(FullPath(env, curDir, srcBytes));
      if read.Failure? {
        out, err := outbuf + srcBytes, Some(read.error);
        return;
      }
      imgbuf := read.value;
    } else {
      out, err := outbuf + srcBytes, Some(NotUrlNorPath);
      return;
    }
    var encoded := env.base64(imgbuf);
    var format := env.sniff(imgbuf);
    if format.Failure? {
      out, err := outbuf + srcBytes, Some(format.error);
      return;
    }
    out := outbuf + DATA_IMAGE;
    out := out + format.value;
    out := out + BASE64_MARK;
    out := out + encoded;
    err := None;
    assert out == outbuf + DataUri(format.value, encoded);
  }

  // ---------------------------------------------------------------------
  // translateImgTag

  /** What the second pass writes for slot `j` after the bytes before it:
      the bytes between the name and the value become a plain `="`. */
  function AttrOut(env: Env, inbuf: Bytes, m: seq<int>, j: nat, curDir: Bytes,
                   toTranslate: bool, moveToScript: bool): Bytes
    requires ValidSlots(inbuf, m) && j < SetSlots(m)
  {
    var name := Name(inbuf, m, j);
    var value := Value(inbuf, m, j);
    if name == SRC then
      if !toTranslate then SRC_OPEN + value + QUOTE
      else if moveToScript then []
      else SRC_OPEN + Resolve(env, value, curDir).bytes + QUOTE
    else if name == ID then ID_OPEN + value + QUOTE
    else name + EQ_QUOTE + value + QUOTE
  }

  /** The output for the first `k` set slots, each preceded by the bytes since the previous one. */
  function SlotsOut(env: Env, inbuf: Bytes, m: seq<int>, k: nat, curDir: Bytes,
                    toTranslate: bool, moveToScript: bool): Bytes
    requires ValidSlots(inbuf, m) && k <= SetSlots(m)
  {
    if k == 0 then []
    else
      SlotsOut(env, inbuf, m, k - 1, curDir, toTranslate, moveToScript)
      + inbuf[SlotStart(m, k - 1)..NameStart(m, k - 1)]
      + AttrOut(env, inbuf, m, k - 1, curDir, toTranslate, moveToScript)
  }

  /** The rewritten tag: the slots, then the rest of the tag after the last value's quote. */
  function TagOut(env: Env, inbuf: Bytes, m: seq<int>, curDir: Bytes, moveToScript: bool): Bytes
    requires ValidSlots(inbuf, m)
  {
    var n := SetSlots(m);
    SlotsOut(env, inbuf, m, n, curDir, !Suppressed(inbuf, m), moveToScript) + inbuf[SlotStart(m, n)..m[1]]
  }

  /** The value of the last `id` among the first `k` slots; nil (empty) if there is none. */
  function LastValueNamed(inbuf: Bytes, m: seq<int>, k: nat, name: Bytes): Bytes
    requires ValidSlots(inbuf, m) && k <= SetSlots(m)
  {
    match LastSlotNamed(inbuf, m, k, name)
    case None => []
    case Some(j) => Value(inbuf, m, j)
  }

  /** The resolution of the last `src` among the first `k` slots, if any. */
  function LastSrcResolution(env: Env, inbuf: Bytes, m: seq<int>, k: nat, curDir: Bytes): Option<Resolution>
    requires ValidSlots(inbuf, m) && k <= SetSlots(m)
  {
    match LastSlotNamed(inbuf, m, k, SRC)
    case None => None
    case Some(j) => Some(Resolve(env, Value(inbuf, m, j), curDir))
  }

  /** The id translateImgTag returns: the last `id` value, never a generated one. */
  function TagId(inbuf: Bytes, m: seq<int>): Bytes
    requires ValidSlots(inbuf, m)
  {
    LastValueNamed(inbuf, m, SetSlots(m), ID)
  }

  /** The error translateImgTag returns: that of the last `src` it resolved. */
  function TagErr(env: Env, inbuf: Bytes, m: seq<int>, curDir: Bytes): Option<Error>
    requires ValidSlots(inbuf, m)
  {
    var r := LastSrcResolution(env, inbuf, m, SetSlots(m), curDir);
    if Suppressed(inbuf, m) || r.None? then None else r.value.err
  }

  /** The separately resolved value translateImgTag returns (only in script mode). */
  function TagTranslated(env: Env, inbuf: Bytes, m: seq<int>, curDir: Bytes, moveToScript: bool): Bytes
    requires ValidSlots(inbuf, m)
  {
    var r := LastSrcResolution(env, inbuf, m, SetSlots(m), curDir);
    if Suppressed(inbuf, m) || !moveToScript || r.None? then [] else r.value.bytes
  }

  /** The first pass of translateImgTag: the tag is translated unless some
      set slot is `data-no-hbimg="true"`; the scan stops at the first such slot. */
  method ScanSuppression(inbuf: Bytes, m: seq<int>, matchLen: int) returns (toTranslate: bool)
    requires ValidSlots(inbuf, m) && matchLen == INTS_PER_IMG
    ensures toTranslate <==> !Suppressed(inbuf, m)
  {
    toTranslate := true;
    var i := INTS_PER_TAG_NAME;
    ghost var k: nat := 0;
    while i < matchLen && m[i] != -1
      invariant k <= SetSlots(m) && i == INTS_PER_TAG_NAME + INTS_PER_TAG_ATTR * k
      invariant toTranslate
      invariant forall j: nat :: j < k ==> !SuppressesAt(inbuf, m, j)
      decreases matchLen - i
    {
      assert k < SetSlots(m) && m[i] == NameStart(m, k) && m[i + 1] == NameEnd(m, k);
      assert m[i + 2] == ValStart(m, k) && m[i + 3] == ValEnd(m, k);
      var tag := inbuf[m[i]..m[i + 1]];
      var value := inbuf[m[i + 2]..m[i + 3]];
      if tag == NO_HBIMG && value == TRUE {
        assert SuppressesAt(inbuf, m, k);
        toTranslate := false;
        break;
      }
      i, k := i + INTS_PER_TAG_ATTR, k + 1;
    }
    if toTranslate {
      assert k == SetSlots(m);
    }
  }

  /** One step of translateImgTag's second pass over slot `k`: it copies the
      bytes since the previous slot, appends the rewritten attribute, and
      updates the id, the value resolved for the script and the error. */
  method WriteAttr(env: Env, inbuf: Bytes, m: seq<int>, k: nat, curStart: int, curDir: Bytes, toTranslate: bool,
                   moveToScript: bool, outbuf: Bytes, id0: Bytes, translated0: Bytes, err0: Option<Error>)
    returns (out: Bytes, id: Bytes, translated: Bytes, err: Option<Error>)
    requires ValidSlots(inbuf, m) && k < SetSlots(m) && curStart == SlotStart(m, k)
    ensures out == outbuf + (inbuf[SlotStart(m, k)..NameStart(m, k)] + AttrOut(env, inbuf, m, k, curDir, toTranslate, moveToScript))
    ensures id == if Name(inbuf, m, k) == ID then Value(inbuf, m, k) else id0
    ensures var r := Resolve(env, Value(inbuf, m, k), curDir);
      if Name(inbuf, m, k) == SRC && toTranslate
      then err == r.err && translated == (if moveToScript then r.bytes else translated0)
      else err == err0 && translated == translated0
  {
    var gap := inbuf[curStart..NameStart(m, k)];
    var tag := Name(inbuf, m, k);
    var value := Value(inbuf, m, k);
    out, id, translated, err := outbuf + gap, id0, translated0, err0;
    ghost var gapped := out;
    if tag == SRC {
      if !toTranslate {
        out := out + SRC_OPEN;
        out := out + value;
        out := out + QUOTE;
        AppendAssoc(gapped, SRC_OPEN, value);
        AppendAssoc(gapped, SRC_OPEN + value, QUOTE);
      } else if moveToScript {
        translated := [];
        translated, err := TranslateSrc(env, translated, value, curDir);
      } else {
        out := out + SRC_OPEN;
        ghost var r := Resolve(env, value, curDir).bytes;
        out, err := TranslateSrc(env, out, value, curDir);
        out := out + QUOTE;
        AppendAssoc(gapped, SRC_OPEN, r);
        AppendAssoc(gapped, SRC_OPEN + r, QUOTE);
      }
    } else if tag == ID {
      id := value;
      out := out + ID_OPEN;
      out := out + id;
      out := out + QUOTE;
      AppendAssoc(gapped, ID_OPEN, value);
      AppendAssoc(gapped, ID_OPEN + value, QUOTE);
    } else {
      out := out + tag;
      out := out + EQ_QUOTE;
      out := out + value;
      out := out + QUOTE;
      AppendAssoc(gapped, tag, EQ_QUOTE);
      AppendAssoc(gapped, tag + EQ_QUOTE, value);
      AppendAssoc(gapped, tag + EQ_QUOTE + value, QUOTE);
    }
    AppendAssoc(outbuf, gap, AttrOut(env, inbuf, m, k, curDir, toTranslate, moveToScript));
  }

  /** SlotsOut for `k` slots extends that for `k - 1` by the last gap and attribute. */
  lemma SlotsOutUnfold(env: Env, inbuf: Bytes, m: seq<int>, k: nat, curDir: Bytes, toTranslate: bool, moveToScript: bool)
    requires ValidSlots(inbuf, m) && 0 < k <= SetSlots(m)
    ensures SlotsOut(env, inbuf, m, k, curDir, toTranslate, moveToScript)
      == SlotsOut(env, inbuf, m, k - 1, curDir, toTranslate, moveToScript)
         + inbuf[SlotStart(m, k - 1)..NameStart(m, k - 1)] + AttrOut(env, inbuf, m, k - 1, curDir, toTranslate, moveToScript)
  {
  }

  /** How the second pass's state moves on over slot `k`. */
  lemma SlotStep(env: Env, inbuf: Bytes, m: seq<int>, k: nat, curDir: Bytes, toTranslate: bool, moveToScript: bool)
    requires ValidSlots(inbuf, m) && k < SetSlots(m)
    ensures SlotsOut(env, inbuf, m, k + 1, curDir, toTranslate, moveToScript)
      == SlotsOut(env, inbuf, m, k, curDir, toTranslate, moveToScript)
         + inbuf[SlotStart(m, k)..NameStart(m, k)] + AttrOut(env, inbuf, m, k, curDir, toTranslate, moveToScript)
    ensures LastValueNamed(inbuf, m, k + 1, ID)
      == if Name(inbuf, m, k) == ID then Value(inbuf, m, k) else LastValueNamed(inbuf, m, k, ID)
    ensures LastSrcResolution(env, inbuf, m, k + 1, curDir)
      == if Name(inbuf, m, k) == SRC then Some(Resolve(env, Value(inbuf, m, k), curDir))
         else LastSrcResolution(env, inbuf, m, k, curDir)
    ensures SlotStart(m, k + 1) == ValEnd(m, k) + 1
  {
  }

  /** translateImgTag: a first pass decides whether the tag is suppressed, a
      second pass rewrites its set slots in order. */
  method TranslateImgTag(env: Env, inbuf: Bytes, outbuf: Bytes, m: seq<int>, curDir: Bytes, moveToScript: bool)
    returns (out: Bytes, id: Bytes, translated: Bytes, err: Option<Error>)
    requires ValidSlots(inbuf, m)
    ensures out == outbuf + TagOut(env, inbuf, m, curDir, moveToScript)
    ensures id == TagId(inbuf, m)
    ensures translated == TagTranslated(env, inbuf, m, curDir, moveToScript)
    ensures err == TagErr(env, inbuf, m, curDir)
  {
    var matchLen := if |m| < INTS_PER_IMG then |m| else INTS_PER_IMG;
    var curStart := m[0];
    id, translated, err := [], [], None;
    var toTranslate;
    out := outbuf;

    toTranslate := ScanSuppression(inbuf, m, matchLen);

    // i walks the submatch indices, k the slot they belong to
    var i := INTS_PER_TAG_NAME;
    var k: nat := 0;

    while i < matchLen && m[i] != -1
      invariant k <= SetSlots(m) && i == INTS_PER_TAG_NAME + INTS_PER_TAG_ATTR * k
      invariant curStart == SlotStart(m, k)
      invariant out == outbuf + SlotsOut(env, inbuf, m, k, curDir, toTranslate, moveToScript)
      invariant id == LastValueNamed(inbuf, m, k, ID)
      invariant var r := LastSrcResolution(env, inbuf, m, k, curDir);
        err == (if !toTranslate || r.None? then None else r.value.err)
      invariant var r := LastSrcResolution(env, inbuf, m, k, curDir);
        translated == (if !toTranslate || !moveToScript || r.None? then [] else r.value.bytes)
      decreases matchLen - i
    {
      assert k < SetSlots(m) && m[i] == NameStart(m, k) && m[i + 1] == NameEnd(m, k);
      assert m[i + 2] == ValStart(m, k) && m[i + 3] == ValEnd(m, k);
      SlotStep(env, inbuf, m, k, curDir, toTranslate, moveToScript);
      ghost var prev := SlotsOut(env, inbuf, m, k, curDir, toTranslate, moveToScript);
      ghost var gap, attr := inbuf[SlotStart(m, k)..NameStart(m, k)], AttrOut(env, inbuf, m, k, curDir, toTranslate, moveToScript);
      out, id, translated, err := WriteAttr(env, inbuf, m, k, curStart, curDir, toTranslate, moveToScript, out, id, translated, err);
      AppendAssoc(outbuf, prev, gap + attr);
      AppendAssoc(prev, gap, attr);
      curStart := m[i + 3] + 1;
      i, k := i + INTS_PER_TAG_ATTR, k + 1;
    }
    assert k == SetSlots(m);
    AppendAssoc(outbuf, SlotsOut(env, inbuf, m, k, curDir, toTranslate, moveToScript), inbuf[curStart..m[1]]);
    out := out + inbuf[curStart..m[1]];
  }

  // ---------------------------------------------------------------------
  // Properties of the rewrite

  /** A tag with no set slot is copied byte for byte. */
  lemma ZeroSlotsCopiedVerbatim(env: Env, inbuf: Bytes, m: seq<int>, curDir: Bytes, moveToScript: bool)
    requires ValidSlots(inbuf, m) && SetSlots(m) == 0
    ensures TagOut(env, inbuf, m, curDir, moveToScript) == inbuf[m[0]..m[1]]
    ensures TagId(inbuf, m) == [] && TagErr(env, inbuf, m, curDir) == None
  {
  }

  /** When a tag is not translated, or the script gets the value, the slots'
      output does not depend on what fetching, sniffing or encoding return;
      and an untranslated tag's output does not depend on the mode either. */
  lemma {:induction false} SlotsOutWithoutFetch(env1: Env, env2: Env, inbuf: Bytes, m: seq<int>, k: nat, curDir: Bytes,
                                                toTranslate: bool, mode1: bool, mode2: bool)
    requires ValidSlots(inbuf, m) && k <= SetSlots(m)
    requires !toTranslate || (mode1 && mode2)
    ensures SlotsOut(env1, inbuf, m, k, curDir, toTranslate, mode1) == SlotsOut(env2, inbuf, m, k, curDir, toTranslate, mode2)
  {
    if k > 0 {
      SlotsOutWithoutFetch(env1, env2, inbuf, m, k - 1, curDir, toTranslate, mode1, mode2);
      AttrOutWithoutFetch(env1, env2, inbuf, m, k - 1, curDir, toTranslate, mode1, mode2);
      SlotsOutUnfold(env1, inbuf, m, k, curDir, toTranslate, mode1);
      SlotsOutUnfold(env2, inbuf, m, k, curDir, toTranslate, mode2);
    }
  }

  /** The one-slot case of SlotsOutWithoutFetch. */
  lemma AttrOutWithoutFetch(env1: Env, env2: Env, inbuf: Bytes, m: seq<int>, j: nat, curDir: Bytes,
                            toTranslate: bool, mode1: bool, mode2: bool)
    requires ValidSlots(inbuf, m) && j < SetSlots(m)
    requires !toTranslate || (mode1 && mode2)
    ensures AttrOut(env1, inbuf, m, j, curDir, toTranslate, mode1) == AttrOut(env2, inbuf, m, j, curDir, toTranslate, mode2)
  {
  }

  /** A `data-no-hbimg="true"` tag, whether that slot comes before or after
      its `src`, is written the same way in both modes and whatever the image
      sources hold; it reports no error and resolves no script value. */
  lemma SuppressedTagUntouched(env1: Env, env2: Env, inbuf: Bytes, m: seq<int>, curDir: Bytes, mode1: bool, mode2: bool)
    requires ValidSlots(inbuf, m) && Suppressed(inbuf, m)
    ensures TagOut(env1, inbuf, m, curDir, mode1) == TagOut(env2, inbuf, m, curDir, mode2)
    ensures TagErr(env1, inbuf, m, curDir) == None
    ensures TagTranslated(env1, inbuf, m, curDir, mode1) == []
  {
    SlotsOutWithoutFetch(env1, env2, inbuf, m, SetSlots(m), curDir, false, mode1, mode2);
  }

  /** In script mode no resolved bytes reach the tag itself: its output is
      the same whatever fetching, sniffing or encoding return. */
  lemma ScriptModeTagIgnoresFetch(env1: Env, env2: Env, inbuf: Bytes, m: seq<int>, curDir: Bytes)
    requires ValidSlots(inbuf, m)
    ensures TagOut(env1, inbuf, m, curDir, true) == TagOut(env2, inbuf, m, curDir, true)
  {
    SlotsOutWithoutFetch(env1, env2, inbuf, m, SetSlots(m), curDir, !Suppressed(inbuf, m), true, true);
  }

  /** A slot written as name, `="`, value and closing quote. */
  predicate CanonicalSlot(inbuf: Bytes, m: seq<int>, j: nat)
    requires ValidSlots(inbuf, m) && j < SetSlots(m)
  {
    inbuf[NameEnd(m, j)..ValStart(m, j)] == EQ_QUOTE && inbuf[ValEnd(m, j)..ValEnd(m, j) + 1] == QUOTE
  }

  /** A canonical slot spans its name through its closing quote. */
  lemma CanonicalSlotSpan(inbuf: Bytes, m: seq<int>, j: nat)
    requires ValidSlots(inbuf, m) && j < SetSlots(m) && CanonicalSlot(inbuf, m, j)
    ensures Name(inbuf, m, j) + EQ_QUOTE + Value(inbuf, m, j) + QUOTE == inbuf[NameStart(m, j)..ValEnd(m, j) + 1]
  {
    SliceConcat(inbuf, NameStart(m, j), NameEnd(m, j), ValStart(m, j));
    SliceConcat(inbuf, NameStart(m, j), ValStart(m, j), ValEnd(m, j));
    SliceConcat(inbuf, NameStart(m, j), ValEnd(m, j), ValEnd(m, j) + 1);
  }

  /** A canonical attribute other than `src` and `id` is written back as it was read. */
  lemma PlainAttrVerbatim(env: Env, inbuf: Bytes, m: seq<int>, j: nat, curDir: Bytes,
                          toTranslate: bool, moveToScript: bool)
    requires ValidSlots(inbuf, m) && j < SetSlots(m)
    requires Name(inbuf, m, j) != SRC && Name(inbuf, m, j) != ID && CanonicalSlot(inbuf, m, j)
    ensures AttrOut(env, inbuf, m, j, curDir, toTranslate, moveToScript) == inbuf[NameStart(m, j)..ValEnd(m, j) + 1]
  {
    CanonicalSlotSpan(inbuf, m, j);
  }

  /** The first `k` slots are canonical and none of them is `src` or `id`. */
  predicate PlainSlots(inbuf: Bytes, m: seq<int>, k: nat)
    requires ValidSlots(inbuf, m) && k <= SetSlots(m)
  {
    forall j: nat :: j < k ==> Name(inbuf, m, j) != SRC && Name(inbuf, m, j) != ID && CanonicalSlot(inbuf, m, j)
  }

  /** Plain slots come out unchanged, with the bytes between them. */
  lemma {:induction false} SlotsOutVerbatim(env: Env, inbuf: Bytes, m: seq<int>, k: nat, curDir: Bytes,
                                            toTranslate: bool, moveToScript: bool)
    requires ValidSlots(inbuf, m) && k <= SetSlots(m) && PlainSlots(inbuf, m, k)
    ensures SlotsOut(env, inbuf, m, k, curDir, toTranslate, moveToScript) == inbuf[m[0]..SlotStart(m, k)]
  {
    if k > 0 {
      var j := k - 1;
      var lo, start, nameStart, end := m[0], SlotStart(m, j), NameStart(m, j), ValEnd(m, j) + 1;
      assert lo <= start <= nameStart <= end <= |inbuf|;
      assert PlainSlots(inbuf, m, j);
      SlotsOutVerbatim(env, inbuf, m, j, curDir, toTranslate, moveToScript);
      PlainAttrVerbatim(env, inbuf, m, j, curDir, toTranslate, moveToScript);
      SliceConcat(inbuf, lo, start, nameStart);
      SliceConcat(inbuf, lo, nameStart, end);
      SlotStep(env, inbuf, m, j, curDir, toTranslate, moveToScript);
    } else {
      assert SlotStart(m, 0) == m[0];
    }
  }

  /** A tag whose set slots are all plain is copied unchanged: the rewrite
      reassembles exactly the bytes it took apart. */
  lemma CanonicalTagRoundTrip(env: Env, inbuf: Bytes, m: seq<int>, curDir: Bytes, moveToScript: bool)
    requires ValidSlots(inbuf, m) && PlainSlots(inbuf, m, SetSlots(m))
    ensures TagOut(env, inbuf, m, curDir, moveToScript) == inbuf[m[0]..m[1]]
  {
    var n := SetSlots(m);
    SlotsOutVerbatim(env, inbuf, m, n, curDir, !Suppressed(inbuf, m), moveToScript);
    SliceConcat(inbuf, m[0], SlotStart(m, n), m[1]);
  }

  /** A canonical `id` attribute is written back with one more space before it. */
  lemma IdAttrOut(env: Env, inbuf: Bytes, m: seq<int>, j: nat, curDir: Bytes, toTranslate: bool, moveToScript: bool)
    requires ValidSlots(inbuf, m) && j < SetSlots(m)
    requires Name(inbuf, m, j) == ID && CanonicalSlot(inbuf, m, j)
    ensures AttrOut(env, inbuf, m, j, curDir, toTranslate, moveToScript) == [32] + inbuf[NameStart(m, j)..ValEnd(m, j) + 1]
  {
    CanonicalSlotSpan(inbuf, m, j);
    var v := Value(inbuf, m, j);
    assert ID_OPEN + v + QUOTE == [32] + (ID + EQ_QUOTE + v + QUOTE);
  }

  /** The output of a first slot that is a canonical `id`: the gap before
      it, then a space and the attribute as it was read. */
  lemma IdSlotOut(env: Env, inbuf: Bytes, m: seq<int>, curDir: Bytes, toTranslate: bool, moveToScript: bool)
    requires ValidSlots(inbuf, m) && 0 < SetSlots(m)
    requires Name(inbuf, m, 0) == ID && CanonicalSlot(inbuf, m, 0)
    ensures SlotsOut(env, inbuf, m, 1, curDir, toTranslate, moveToScript)
      == inbuf[m[0]..NameStart(m, 0)] + ([32] + inbuf[NameStart(m, 0)..ValEnd(m, 0) + 1])
  {
    var gap := inbuf[m[0]..NameStart(m, 0)];
    IdAttrOut(env, inbuf, m, 0, curDir, toTranslate, moveToScript);
    SlotsOutUnfold(env, inbuf, m, 1, curDir, toTranslate, moveToScript);
    assert SlotStart(m, 0) == m[0];
    assert SlotsOut(env, inbuf, m, 0, curDir, toTranslate, moveToScript) == [];
    assert [] + gap == gap;
  }

  /** An `id` attribute is rewritten with a space of its own in front, on top
      of the whitespace already copied before it, so `<img id="a">` becomes
      `<img  id="a">`. */
  lemma IdAttributeGainsSpace(env: Env, inbuf: Bytes, m: seq<int>, curDir: Bytes, moveToScript: bool)
    requires ValidSlots(inbuf, m) && SetSlots(m) == 1
    requires Name(inbuf, m, 0) == ID && CanonicalSlot(inbuf, m, 0)
    ensures TagOut(env, inbuf, m, curDir, moveToScript)
      == inbuf[m[0]..NameStart(m, 0)] + [32] + inbuf[NameStart(m, 0)..m[1]]
    ensures TagId(inbuf, m) == Value(inbuf, m, 0)
  {
    var a, b, c, d := m[0], NameStart(m, 0), ValEnd(m, 0) + 1, m[1];
    IdSlotOut(env, inbuf, m, curDir, !Suppressed(inbuf, m), moveToScript);
    assert SlotStart(m, 1) == c;
    assert TagOut(env, inbuf, m, curDir, moveToScript) == inbuf[a..b] + ([32] + inbuf[b..c]) + inbuf[c..d];
    SpaceInserted(inbuf, a, b, c, d);
  }

  /** Slicing arithmetic behind IdAttributeGainsSpace: a space inserted at `b`. */
  lemma SpaceInserted(s: Bytes, a: nat, b: nat, c: nat, d: nat)
    requires a <= b <= c <= d <= |s|
    ensures s[a..b] + ([32] + s[b..c]) + s[c..d] == s[a..b] + [32] + s[b..d]
  {
    SliceConcat(s, b, c, d);
    AppendAssoc(s[a..b], [32] + s[b..c], s[c..d]);
    AppendAssoc([32], s[b..c], s[c..d]);
    AppendAssoc(s[a..b], [32], s[b..d]);
  }

  /** Every id the rewrite returns is an `id` value taken from the tag,
      never a generated one; it is empty only when the last `id` value is
      empty or there is none. */
  lemma IdComesFromTag(inbuf: Bytes, m: seq<int>)
    requires ValidSlots(inbuf, m)
    ensures TagId(inbuf, m) == [] || exists j: nat :: j < SetSlots(m) && Name(inbuf, m, j) == ID && Value(inbuf, m, j) == TagId(inbuf, m)
    ensures (forall j: nat :: j < SetSlots(m) ==> Name(inbuf, m, j) != ID) ==> TagId(inbuf, m) == []
  {
  }
}
