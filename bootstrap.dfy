/**
 * The logic of the EPW loader bootstrap (eagler/bootstrap.js, `window.main`)
 * without the page: reading the options object, resolving `assetsURI`,
 * obtaining the EPW file (a fetch result, or the manual base64 decoder for a
 * `data:` URL), validating the EPW header and its fixed component slots,
 * slicing the components out, and copying the options for the loader.
 *
 * The page is represented by parameters: whether the container element
 * exists, and what `fetch` yielded for the URL.
 */
module Bootstrap {
  import opened Wrappers
  import opened ByteCursor
  import opened Base64
  import Base64RoundTrip

  // ---------------------------------------------------------------------
  // JavaScript values and the options object
  // ---------------------------------------------------------------------

  /** The JavaScript values the options object can hold (numbers as integers). */
  datatype JsValue =
    | JsUndefined
    | JsNull
    | JsBool(b: bool)
    | JsNumber(n: int)
    | JsString(s: string)
    | JsArray(elems: seq<JsValue>)
    | JsObject(props: map<string, JsValue>)

  /** window.eaglercraftXOpts: property name to value. */
  type Options = map<string, JsValue>

  /** Reading a property of a plain object: a missing key reads as undefined. */
  function Prop(props: map<string, JsValue>, key: string): JsValue {
    if key in props then props[key] else JsUndefined
  }

  /** `typeof v === 'object'`, which holds for null as well. */
  predicate IsObjectType(v: JsValue) {
    v.JsNull? || v.JsArray? || v.JsObject?
  }

  datatype Component = Splash | Loader

  /** Every way `window.main` gives up, in the order it checks them. */
  datatype BootError =
    | ContainerNotString
    | AssetsURINotString
    | PropertyOfNull
    | UnknownContainer
    | DownloadFailed
    | InvalidEpw(badMagic: bool, badLength: bool)
    | InvalidOffset(component: Component)

  /**
   * `v[key]` for a value whose typeof is 'object': reading a property of
   * null throws a TypeError; an array's only property read here is index 0.
   */
  function Member(v: JsValue, key: string): (r: Result<JsValue, BootError>)
    requires IsObjectType(v)
    ensures r.Failure? <==> v.JsNull?
  {
    match v
    case JsNull => Failure(PropertyOfNull)
    case JsArray(e) => Success(if key == "0" && |e| > 0 then e[0] else JsUndefined)
    case JsObject(p) => Success(Prop(p, key))
  }

  /**
   * The assetsURI option: a string is taken as it is; otherwise an object
   * whose element 0 is an object with a string `url` gives that url.
   */
  function ResolveAssetsURI(v: JsValue): (r: Result<string, BootError>)
    ensures v.JsString? ==> r == Success(v.s)
    ensures !v.JsString? && !IsObjectType(v) ==> r == Failure(AssetsURINotString)
  {
    if v.JsString? then Success(v.s)
    else if !IsObjectType(v) then Failure(AssetsURINotString)
    else
      var first :- Member(v, "0");
      if !IsObjectType(first) then Failure(AssetsURINotString)
      else
        var url :- Member(first, "url");
        if url.JsString? then Success(url.s) else Failure(AssetsURINotString)
  }

  /** The url of a `{url: string}` entry, by shape. */
  function EntryUrl(x: JsValue): Option<string> {
    match x
    case JsObject(p) => if "url" in p && p["url"].JsString? then Some(p["url"].s) else None
    case _ => None
  }

  /** The documented list form `[{url: string}, ...]`, or an object keyed "0", by shape. */
  function FirstUrl(v: JsValue): Option<string> {
    match v
    case JsArray(e) => if |e| > 0 then EntryUrl(e[0]) else None
    case JsObject(p) => if "0" in p then EntryUrl(p["0"]) else None
    case _ => None
  }

  /** The element 0 the resolver looks at is null. */
  predicate FirstIsNull(v: JsValue) {
    (v.JsArray? && |v.elems| > 0 && v.elems[0].JsNull?) ||
    (v.JsObject? && "0" in v.props && v.props["0"].JsNull?)
  }

  /**
   * The resolver accepts exactly a string or a value whose first entry
   * carries a string url, and yields that string; it throws exactly when
   * the value or its first entry is null.
   */
  lemma ResolveAssetsURIShape(v: JsValue)
    ensures ResolveAssetsURI(v).Success? <==> v.JsString? || FirstUrl(v).Some?
    ensures ResolveAssetsURI(v).Success? ==>
              ResolveAssetsURI(v).value == if v.JsString? then v.s else FirstUrl(v).value
    ensures ResolveAssetsURI(v) == Failure(PropertyOfNull) <==> v.JsNull? || FirstIsNull(v)
  {
    if IsObjectType(v) && !v.JsNull? {
      var first := Member(v, "0").value;
      if first.JsArray? {
        assert Member(first, "url") == Success(JsUndefined);
      }
    }
  }

  // ---------------------------------------------------------------------
  // Obtaining the file
  // ---------------------------------------------------------------------

  const DataPrefix: string := "data:application/octet-stream;base64,"

  predicate StartsWith(s: string, prefix: string) {
    |prefix| <= |s| && s[..|prefix|] == prefix
  }

  /**
   * fetchEPWSmart: what `fetch` yielded, except that for a base64 data URL
   * that `fetch` could not read, the manual decoder's result from just after
   * the prefix (none if it throws).
   */
  function FetchResult(url: string, fetched: Option<seq<uint8>>): Option<seq<uint8>> {
    if StartsWith(url, DataPrefix) && fetched.None? then
      match Decode(url, |DataPrefix|)
      case Success(bytes) => Some(bytes)
      case Failure(_) => None
    else fetched
  }

  /** fetchEPWSmart, with the decoder built from its table and applied after the prefix. */
  method FetchEpwSmart(url: string, fetched: Option<seq<uint8>>) returns (r: Option<seq<uint8>>)
    ensures r == FetchResult(url, fetched)
  {
    if StartsWith(url, DataPrefix) {
      if fetched.Some? {
        return fetched;
      }
      var table := CreateDecodeTable();
      var decoded := TableDecode(table, url, |DataPrefix|);
      if decoded.Failure? {
        return None;
      }
      return Some(decoded.value);
    }
    return fetched;
  }

  /** A data URL that fetch could not read yields the bytes its base64 text encodes. */
  lemma DataUrlFallback(d: seq<uint8>)
    ensures FetchResult(DataPrefix + Base64RoundTrip.Encode(d), None) == Some(d)
  {
    var url := DataPrefix + Base64RoundTrip.Encode(d);
    assert url[..|DataPrefix|] == DataPrefix;
    Base64RoundTrip.DecodeAfterPrefix(DataPrefix, Base64RoundTrip.Encode(d));
    Base64RoundTrip.DecodeEncode(d);
  }

  /** On the fallback path only the text after the prefix matters. */
  lemma DataUrlFallbackDecodes(s: string)
    ensures FetchResult(DataPrefix + s, None) ==
              match Decode(s, 0) case Success(b) => Some(b) case Failure(_) => None
  {
    assert (DataPrefix + s)[..|DataPrefix|] == DataPrefix;
    Base64RoundTrip.DecodeAfterPrefix(DataPrefix, s);
  }

  // ---------------------------------------------------------------------
  // The EPW header and its component slots
  // ---------------------------------------------------------------------

  const MinEpwLength: nat := 384
  const MagicA: uint32 := 608649541
  const MagicB: uint32 := 1297301847

  /** The first eight bytes of an EPW file, "EAG$WASM" in ASCII. */
  const EpwMagic: seq<uint8> := [0x45, 0x41, 0x47, 0x24, 0x57, 0x41, 0x53, 0x4D]

  /** Where a component's u32 offset and u32 length are stored in the header. */
  datatype Slot = Slot(offsetAt: nat, lengthAt: nat)

  const SplashSlot := Slot(100, 104)
  const MimeSlot := Slot(108, 112)
  const LoaderJsSlot := Slot(164, 168)
  const LoaderWasmSlot := Slot(180, 184)

  predicate SlotReadable(buf: seq<uint8>, slot: Slot) {
    slot.offsetAt + 4 <= |buf| && slot.lengthAt + 4 <= |buf|
  }

  /** The slot's component lies inside the file (exact arithmetic, no wrap-around). */
  predicate SlotFits(buf: seq<uint8>, slot: Slot)
    requires SlotReadable(buf, slot)
  {
    ReadU32LE(buf, slot.offsetAt) + ReadU32LE(buf, slot.lengthAt) <= |buf|
  }

  /** new Uint8Array(buf, offset, length): the declared number of bytes from the declared offset. */
  function SlotBytes(buf: seq<uint8>, slot: Slot): (r: seq<uint8>)
    requires SlotReadable(buf, slot) && SlotFits(buf, slot)
    ensures |r| == ReadU32LE(buf, slot.lengthAt)
    ensures forall j :: 0 <= j < |r| ==> r[j] == buf[ReadU32LE(buf, slot.offsetAt) + j]
  {
    var off := ReadU32LE(buf, slot.offsetAt);
    buf[off..off + ReadU32LE(buf, slot.lengthAt)]
  }

  datatype EpwParts = EpwParts(splash: seq<uint8>, mime: seq<uint8>, loaderJs: seq<uint8>, loaderWasm: seq<uint8>)

  /**
   * The checks of `window.main` on the file: missing or shorter than 384
   * bytes; then both magic words and the declared length, reported
   * together; then the splash and mime slots; then the loader.js and
   * loader.wasm slots.
   */
  function CheckEpw(epw: Option<seq<uint8>>): Result<EpwParts, BootError> {
    if epw.None? || |epw.value| < MinEpwLength then Failure(DownloadFailed)
    else
      var b := epw.value;
      var badMagic := ReadU32LE(b, 0) != MagicA || ReadU32LE(b, 4) != MagicB;
      var badLength := ReadU32LE(b, 8) != |b|;
      if badMagic || badLength then Failure(InvalidEpw(badMagic, badLength))
      else if !SlotFits(b, SplashSlot) || !SlotFits(b, MimeSlot) then Failure(InvalidOffset(Splash))
      else if !SlotFits(b, LoaderJsSlot) || !SlotFits(b, LoaderWasmSlot) then Failure(InvalidOffset(Loader))
      else Success(EpwParts(SlotBytes(b, SplashSlot), SlotBytes(b, MimeSlot),
                            SlotBytes(b, LoaderJsSlot), SlotBytes(b, LoaderWasmSlot)))
  }

  /** An EPW file in terms of its bytes: the magic, its own length, and four slots inside it. */
  predicate WellFormedEpw(b: seq<uint8>) {
    MinEpwLength <= |b| < 0x1_0000_0000 &&
    b[..8] == EpwMagic && b[8..12] == U32LE(|b|) &&
    SlotFits(b, SplashSlot) && SlotFits(b, MimeSlot) &&
    SlotFits(b, LoaderJsSlot) && SlotFits(b, LoaderWasmSlot)
  }

  /** The two magic words are the bytes "EAG$WASM". */
  lemma MagicIsEagWasm(b: seq<uint8>)
    requires 8 <= |b|
    ensures ReadU32LE(b, 0) == MagicA && ReadU32LE(b, 4) == MagicB <==> b[..8] == EpwMagic
  {
    ReadU32LEBytes(b, 0);
    ReadU32LEBytes(b, 4);
    assert U32LE(MagicA) == EpwMagic[..4];
    assert U32LE(MagicB) == EpwMagic[4..];
    if b[..8] == EpwMagic {
      assert b[0..4] == EpwMagic[..4] && b[4..8] == EpwMagic[4..];
    }
  }

  /** The declared-length field equals the length exactly when it holds the length's bytes. */
  lemma DeclaredLengthBytes(b: seq<uint8>)
    requires 12 <= |b|
    ensures ReadU32LE(b, 8) == |b| <==> |b| < 0x1_0000_0000 && b[8..12] == U32LE(|b|)
  {
    ReadU32LEBytes(b, 8);
  }

  /** The loader accepts exactly the well-formed files, and its components are their slots. */
  lemma CheckEpwAccepts(b: seq<uint8>)
    ensures CheckEpw(Some(b)).Success? <==> WellFormedEpw(b)
    ensures WellFormedEpw(b) ==>
              CheckEpw(Some(b)) == Success(EpwParts(SlotBytes(b, SplashSlot), SlotBytes(b, MimeSlot),
                                                    SlotBytes(b, LoaderJsSlot), SlotBytes(b, LoaderWasmSlot)))
  {
    if MinEpwLength <= |b| {
      MagicIsEagWasm(b);
      DeclaredLengthBytes(b);
    }
  }

  /** A missing or short file is rejected on its length alone, before any field is read. */
  lemma ShortFileRejected(epw: Option<seq<uint8>>)
    requires epw.None? || |epw.value| < MinEpwLength
    ensures CheckEpw(epw) == Failure(DownloadFailed)
  {
  }

  /** Both header faults are reported, whichever else is wrong. */
  lemma HeaderFaultsTogether(b: seq<uint8>)
    requires MinEpwLength <= |b|
    requires b[..8] != EpwMagic && ReadU32LE(b, 8) != |b|
    ensures CheckEpw(Some(b)) == Failure(InvalidEpw(true, true))
  {
    MagicIsEagWasm(b);
  }

  /** Cutting bytes off a valid file is caught: short, or the declared length no longer matches. */
  lemma TruncatedRejected(b: seq<uint8>, n: nat)
    requires WellFormedEpw(b) && n < |b|
    ensures CheckEpw(Some(b[..n])) == Failure(DownloadFailed) ||
            CheckEpw(Some(b[..n])) == Failure(InvalidEpw(false, true))
  {
    if MinEpwLength <= n {
      var t := b[..n];
      assert t[..8] == b[..8] && t[8..12] == b[8..12];
      MagicIsEagWasm(b);
      MagicIsEagWasm(t);
      DeclaredLengthBytes(b);
      assert ReadU32LE(t, 8) == ReadU32LE(b, 8);
    }
  }

  /** Appending bytes to a valid file is caught by the declared length alone. */
  lemma ExtendedRejected(b: seq<uint8>, extra: seq<uint8>)
    requires WellFormedEpw(b) && extra != []
    ensures CheckEpw(Some(b + extra)) == Failure(InvalidEpw(false, true))
  {
    var t := b + extra;
    assert t[..8] == b[..8] && t[8..12] == b[8..12];
    MagicIsEagWasm(b);
    MagicIsEagWasm(t);
    DeclaredLengthBytes(b);
    assert ReadU32LE(t, 8) == ReadU32LE(b, 8);
  }

  /** Changing any of the eight magic bytes of a valid file is caught as a bad magic only. */
  lemma CorruptMagicRejected(b: seq<uint8>, i: nat, v: uint8)
    requires WellFormedEpw(b) && i < 8 && v != b[i]
    ensures CheckEpw(Some(b[i := v])) == Failure(InvalidEpw(true, false))
  {
    var t := b[i := v];
    assert t[..8][i] != EpwMagic[i];
    MagicIsEagWasm(t);
    DeclaredLengthBytes(b);
    assert ReadU32LE(t, 8) == ReadU32LE(b, 8);
  }

  /** An out-of-bounds splash or mime slot is reported as such whatever the loader slots hold. */
  lemma SplashCheckedFirst(b: seq<uint8>)
    requires MinEpwLength <= |b| && b[..8] == EpwMagic && ReadU32LE(b, 8) == |b|
    requires !SlotFits(b, SplashSlot) || !SlotFits(b, MimeSlot)
    ensures CheckEpw(Some(b)) == Failure(InvalidOffset(Splash))
  {
    MagicIsEagWasm(b);
  }

  /** With the header and the splash and mime slots good, a bad loader.js or
    * loader.wasm slot is reported as the loader component. */
  lemma LoaderSlotRejected(b: seq<uint8>)
    requires MinEpwLength <= |b| && b[..8] == EpwMagic && ReadU32LE(b, 8) == |b|
    requires SlotFits(b, SplashSlot) && SlotFits(b, MimeSlot)
    requires !SlotFits(b, LoaderJsSlot) || !SlotFits(b, LoaderWasmSlot)
    ensures CheckEpw(Some(b)) == Failure(InvalidOffset(Loader))
  {
    MagicIsEagWasm(b);
  }

  // ---------------------------------------------------------------------
  // The options handed to the loader
  // ---------------------------------------------------------------------

  predicate Copied(key: string) {
    key != "container" && key != "assetsURI"
  }

  /** The options minus `container` and `assetsURI`, every other value unchanged. */
  function FilterOptions(opts: Options): (r: Options)
    ensures forall k :: k in r <==> k in opts && Copied(k)
    ensures forall k :: k in r ==> r[k] == opts[k]
  {
    map k | k in opts && Copied(k) :: opts[k]
  }

  /** The copy loop, one property at a time in whatever order the keys come. */
  method CopyOptions(opts: Options) returns (optsCopy: Options)
    ensures optsCopy == FilterOptions(opts)
  {
    optsCopy := map[];
    var rest := opts.Keys;
    while rest != {}
      invariant rest <= opts.Keys
      invariant forall k :: k in optsCopy <==> k in opts && k !in rest && Copied(k)
      invariant forall k :: k in optsCopy ==> optsCopy[k] == opts[k]
      decreases rest
    {
      var k :| k in rest;
      rest := rest - {k};
      if k == "container" || k == "assetsURI" {
        continue;
      }
      optsCopy := optsCopy[k := opts[k]];
    }
    assert optsCopy.Keys == FilterOptions(opts).Keys;
  }

  /** What the excluded keys hold never reaches the copy. */
  lemma FilterIgnoresExcluded(opts: Options, key: string, v: JsValue)
    requires !Copied(key)
    ensures FilterOptions(opts[key := v]) == FilterOptions(opts)
    ensures FilterOptions(opts - {key}) == FilterOptions(opts)
  {
    assert FilterOptions(opts[key := v]).Keys == FilterOptions(opts).Keys;
    assert FilterOptions(opts - {key}).Keys == FilterOptions(opts).Keys;
  }

  /** Copying a copy changes nothing. */
  lemma FilterIdempotent(opts: Options)
    ensures FilterOptions(FilterOptions(opts)) == FilterOptions(opts)
  {
    assert FilterOptions(FilterOptions(opts)).Keys == FilterOptions(opts).Keys;
  }

  /** The options object after main has run: `assetsURI` is deleted once it resolves to a data: URL. */
  function OptionsAfterMain(opts: Options): Options {
    if Prop(opts, "container").JsString? then
      match ResolveAssetsURI(Prop(opts, "assetsURI"))
      case Success(uri) => if StartsWith(uri, "data:") then opts - {"assetsURI"} else opts
      case Failure(_) => opts
    else opts
  }

  // ---------------------------------------------------------------------
  // window.main
  // ---------------------------------------------------------------------

  /** What main hands to the loader: the options copy, the file, and its components. */
  datatype LoaderContext = LoaderContext(
    containerId: string,
    options: Options,
    epwFile: seq<uint8>,
    splash: seq<uint8>,
    mime: seq<uint8>,
    loaderJs: seq<uint8>,
    loaderWasm: seq<uint8>)

  /** The outcome of main, as a function of the options, the page and the fetch. */
  function Boot(opts: Options, elementFound: bool, fetched: Option<seq<uint8>>): Result<LoaderContext, BootError> {
    var container := Prop(opts, "container");
    if !container.JsString? then Failure(ContainerNotString)
    else
      var uri :- ResolveAssetsURI(Prop(opts, "assetsURI"));
      if !elementFound then Failure(UnknownContainer)
      else
        var file := FetchResult(uri, fetched);
        var parts :- CheckEpw(file);
        Success(LoaderContext(container.s, FilterOptions(OptionsAfterMain(opts)), file.value,
                              parts.splash, parts.mime, parts.loaderJs, parts.loaderWasm))
  }

  /**
   * main starts the loader exactly when the container is named by a string,
   * assetsURI resolves, the element exists and the file obtained is a
   * well-formed EPW file; the loader then gets the options without
   * `container` and `assetsURI` and the file's four slots.
   */
  lemma BootAccepts(opts: Options, elementFound: bool, fetched: Option<seq<uint8>>)
    ensures Boot(opts, elementFound, fetched).Success? <==>
              Prop(opts, "container").JsString? && ResolveAssetsURI(Prop(opts, "assetsURI")).Success? && elementFound &&
              var file := FetchResult(ResolveAssetsURI(Prop(opts, "assetsURI")).value, fetched);
              file.Some? && WellFormedEpw(file.value)
    ensures Boot(opts, elementFound, fetched).Success? ==>
              var ctx := Boot(opts, elementFound, fetched).value;
              ctx.containerId == Prop(opts, "container").s &&
              ctx.epwFile == FetchResult(ResolveAssetsURI(Prop(opts, "assetsURI")).value, fetched).value &&
              ctx.options == FilterOptions(opts) &&
              ctx.splash == SlotBytes(ctx.epwFile, SplashSlot) && ctx.mime == SlotBytes(ctx.epwFile, MimeSlot) &&
              ctx.loaderJs == SlotBytes(ctx.epwFile, LoaderJsSlot) && ctx.loaderWasm == SlotBytes(ctx.epwFile, LoaderWasmSlot)
  {
    var container := Prop(opts, "container");
    var resolved := ResolveAssetsURI(Prop(opts, "assetsURI"));
    if container.JsString? && resolved.Success? && elementFound {
      var file := FetchResult(resolved.value, fetched);
      if file.Some? {
        CheckEpwAccepts(file.value);
      }
      FilterIgnoresExcluded(opts, "assetsURI", JsUndefined);
    }
  }

  /**
   * The checks main makes on the file it obtained, in its order and with its
   * single `failed` flag, and the component views it then creates.
   */
  method ValidateEpw(epwBuffer: Option<seq<uint8>>) returns (r: Result<EpwParts, BootError>)
    ensures r == CheckEpw(epwBuffer)
  {
    var failed := false;
    if epwBuffer.None? || |epwBuffer.value| < MinEpwLength {
      failed := true;
    }
    if failed {
      return Failure(DownloadFailed);
    }
    var buf := epwBuffer.value;
    var badMagic, badLength := false, false;
    if ReadU32LE(buf, 0) != MagicA || ReadU32LE(buf, 4) != MagicB {
      badMagic := true;
      failed := true;
    }
    var fileDeclaredLength := ReadU32LE(buf, 8);
    if fileDeclaredLength != |buf| {
      badLength := true;
      failed := true;
    }
    if failed {
      return Failure(InvalidEpw(badMagic, badLength));
    }
    var splashOffset, splashLength := ReadU32LE(buf, 100), ReadU32LE(buf, 104);
    var mimeOffset, mimeLength := ReadU32LE(buf, 108), ReadU32LE(buf, 112);
    if splashOffset + splashLength > |buf| || mimeOffset + mimeLength > |buf| {
      failed := true;
    }
    if failed {
      return Failure(InvalidOffset(Splash));
    }
    var splashBytes := buf[splashOffset..splashOffset + splashLength];
    var mimeBytes := buf[mimeOffset..mimeOffset + mimeLength];
    var loaderJsOffset, loaderJsLength := ReadU32LE(buf, 164), ReadU32LE(buf, 168);
    var loaderWasmOffset, loaderWasmLength := ReadU32LE(buf, 180), ReadU32LE(buf, 184);
    if loaderJsOffset + loaderJsLength > |buf| || loaderWasmOffset + loaderWasmLength > |buf| {
      failed := true;
    }
    if failed {
      return Failure(InvalidOffset(Loader));
    }
    var loaderJsBytes := buf[loaderJsOffset..loaderJsOffset + loaderJsLength];
    var loaderWasmBytes := buf[loaderWasmOffset..loaderWasmOffset + loaderWasmLength];
    r := Success(EpwParts(splashBytes, mimeBytes, loaderJsBytes, loaderWasmBytes));
  }

  /**
   * window.main from reading the options to building the loader context,
   * with its single `failed` flag; it also returns the options object as
   * main leaves it.
   */
  method RunMain(opts: Options, elementFound: bool, fetched: Option<seq<uint8>>)
    returns (r: Result<LoaderContext, BootError>, optsAfter: Options)
    ensures r == Boot(opts, elementFound, fetched)
    ensures optsAfter == OptionsAfterMain(opts)
  {
    optsAfter := opts;
    var containerId := Prop(opts, "container");
    if !containerId.JsString? {
      return Failure(ContainerNotString), optsAfter;
    }
    var resolved := ResolveAssetsURI(Prop(opts, "assetsURI"));
    if resolved.Failure? {
      return Failure(resolved.error), optsAfter;
    }
    var assetsURI := resolved.value;
    if StartsWith(assetsURI, "data:") {
      optsAfter := optsAfter - {"assetsURI"};
    }
    if !elementFound {
      return Failure(UnknownContainer), optsAfter;
    }
    var epwBuffer := FetchEpwSmart(assetsURI, fetched);
    var parts := ValidateEpw(epwBuffer);
    if parts.Failure? {
      return Failure(parts.error), optsAfter;
    }
    var optsCopy := CopyOptions(optsAfter);
    r := Success(LoaderContext(containerId.s, optsCopy, epwBuffer.value, parts.value.splash, parts.value.mime,
                               parts.value.loaderJs, parts.value.loaderWasm));
  }
}
