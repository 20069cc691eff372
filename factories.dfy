/**
 * `ManifestFactory`: turning a layer's metadata into a manifest. The raw
 * manifest (a JSON object of object name to hex string, from a sidecar
 * file or embedded in the header) is converted entry by entry: `int(hex, 16)`,
 * packed as an unsigned 32-bit integer and unpacked as a float in the host's
 * byte order, which keeps the bit pattern.
 *
 * File existence, reading and parsing JSON are outside the model: they are
 * the functions of an `Env` value.
 */
module Manifests {
  import opened Wrappers
  import opened Bits
  import opened ValueObjects
  import opened Paths
  import opened Strings

  /**
   * A value as the `json` module returns it. An object is the items of the
   * `dict` it becomes, in the dict's order (the parser keeps the last value
   * of a repeated name).
   */
  datatype Json =
    | JNull
    | JBool(b: bool)
    | JNumber(n: real)
    | JString(s: string)
    | JArray(items: seq<Json>)
    | JObject(members: seq<(string, Json)>)

  /** Python truthiness: null, false, zero and empty containers are false. */
  predicate Truthy(j: Json) {
    match j
    case JNull => false
    case JBool(b) => b
    case JNumber(n) => n != 0.0
    case JString(s) => s != ""
    case JArray(items) => items != []
    case JObject(members) => members != []
  }

  /** Whether `len()` accepts the value: strings, lists and dicts. */
  predicate HasLen(j: Json) {
    j.JString? || j.JArray? || j.JObject?
  }

  /** The items of a decoded JSON object, in order. */
  type RawManifest = seq<(string, Json)>

  /** What the file system and the JSON parser answer. */
  datatype Env = Env(
    /** `os.path.exists` */
    pathExists: string -> bool,
    /** `open` then `json.load`; `None` when either raises */
    readSidecar: string -> Option<Json>,
    /** `json.loads`; `None` when it raises */
    loadsJson: string -> Option<Json>)

  /** The exceptions that manifest creation lets escape. */
  datatype ManifestError =
    | InvalidHexLiteral(literal: string)  // ValueError from int(_, 16)
    | OutOfRange(value: int)              // struct.error from pack('=I', _)
    | NotText                             // TypeError from int(_, 16) on a non-string
    | NoLength                            // TypeError from len() on a number, bool or null
    | NoItems                             // AttributeError: a list or string has no items()
    | EmbeddedNotJson                     // json.JSONDecodeError
    | EmbeddedNotBytes                    // AttributeError: str has no decode

  /**
   * Hex digits with single underscores between them, as `int(_, 16)`
   * accepts after the sign and prefix: `d+ ('_' d+)*`.
   */
  predicate DigitGroups(s: string) {
    && s != []
    && IsHexDigit(s[0]) && IsHexDigit(s[|s| - 1])
    && HexOrUnderscores(s)
    && (forall i :: 0 <= i < |s| - 1 ==> !UnderscorePairAt(s, i))
  }

  /** Two underscores in a row at `i`. */
  predicate UnderscorePairAt(s: string, i: int)
    requires 0 <= i < |s| - 1
  {
    s[i] == '_' && s[i + 1] == '_'
  }

  /** Every character is a hex digit or an underscore. */
  predicate HexOrUnderscores(s: string) {
    forall i :: 0 <= i < |s| ==> IsHexDigit(s[i]) || s[i] == '_'
  }

  function RemoveUnderscores(s: string): (r: string)
    requires HexOrUnderscores(s)
    ensures forall i :: 0 <= i < |r| ==> IsHexDigit(r[i])
    ensures (forall i :: 0 <= i < |s| ==> IsHexDigit(s[i])) ==> r == s
    ensures |r| + multiset(s)['_'] == |s|
  {
    if s == [] then []
    else
      assert s == [s[0]] + s[1..];
      (if s[0] == '_' then [] else [s[0]]) + RemoveUnderscores(s[1..])
  }

  /** Underscores go one by one: the digits keep their order. */
  lemma {:induction false} RemoveUnderscoresAppend(a: string, b: string)
    requires HexOrUnderscores(a) && HexOrUnderscores(b)
    ensures RemoveUnderscores(a + b) == RemoveUnderscores(a) + RemoveUnderscores(b)
    decreases |a|
  {
    if a == [] {
      assert a + b == b;
    } else {
      var head := if a[0] == '_' then [] else [a[0]];
      var rest := a[1..] + b;
      assert a + b == [a[0]] + rest;
      assert (a + b)[1..] == rest;
      assert RemoveUnderscores(a + b) == head + RemoveUnderscores(rest);
      RemoveUnderscoresAppend(a[1..], b);
      assert RemoveUnderscores(a) == head + RemoveUnderscores(a[1..]);
      ConcatAssociative(head, RemoveUnderscores(a[1..]), RemoveUnderscores(b));
    }
  }

  lemma ConcatAssociative(x: string, y: string, z: string)
    ensures x + (y + z) == (x + y) + z
  {
  }

  /** The text without the sign that may open it. */
  function Unsigned(t: string): (u: string)
    ensures |u| <= |t|
  {
    if t != [] && (t[0] == '-' || t[0] == '+') then t[1..] else t
  }

  /** The digits after an optional `0x`/`0X` prefix and the one underscore that may follow it. */
  function DigitsPart(u: string): (d: string)
    ensures |d| <= |u|
  {
    if |u| >= 2 && u[0] == '0' && (u[1] == 'x' || u[1] == 'X') then
      if |u| >= 3 && u[2] == '_' then u[3..] else u[2..]
    else u
  }

  /**
   * Python's `int(s, 16)`: surrounding whitespace, an optional sign, an
   * optional `0x`/`0X` prefix (which may be followed by one underscore),
   * then hex digits of either case grouped by single underscores. `None`
   * is the `ValueError`.
   */
  function PyIntBase16(s: string): (r: Option<int>)
    ensures r.Some? ==> StripTrailing(StripLeading(s, IsIntSpace), IsIntSpace) != []
    ensures r.Some? && r.value < 0 ==> StripTrailing(StripLeading(s, IsIntSpace), IsIntSpace)[0] == '-'
  {
    var t := StripTrailing(StripLeading(s, IsIntSpace), IsIntSpace);
    var body := DigitsPart(Unsigned(t));
    if DigitGroups(body) then
      var magnitude: int := HexValue(RemoveUnderscores(body));
      Some(if t != [] && t[0] == '-' then -magnitude else magnitude)
    else
      None
  }

  /** `b'\0' * (4 - len(packed)) + packed`. */
  function PadTo4(bytes: seq<Byte>): (r: seq<Byte>)
    requires |bytes| <= 4
    ensures |r| == 4
  {
    seq(4 - |bytes|, _ => 0) + bytes
  }

  /**
   * One manifest value: `int(hex, 16)`, packed with `'=I'` (which refuses
   * values outside [0, 2^32)), padded, unpacked with `'=f'`.
   */
  function ParseHex(hex: string, host: ByteOrder): (r: Result<Bits32, ManifestError>)
    ensures r.Success? <==> PyIntBase16(hex).Some? && 0 <= PyIntBase16(hex).value < Two32
    ensures r.Success? ==> r.value == PyIntBase16(hex).value
    ensures PyIntBase16(hex).None? ==> r == Failure(InvalidHexLiteral(hex))
  {
    match PyIntBase16(hex)
    case None => Failure(InvalidHexLiteral(hex))
    case Some(v) =>
      if 0 <= v < Two32 then
        var packed := PadTo4(Pack(v, host));
        PadIsNoOp(Pack(v, host));
        UnpackPack(v, host);
        Success(Unpack(packed, host))
      else
        Failure(OutOfRange(v))
  }

  /** The padding never adds a byte: the packed value is always four bytes long. */
  lemma PadIsNoOp(bytes: seq<Byte>)
    requires |bytes| == 4
    ensures PadTo4(bytes) == bytes
  {
  }

  /**
   * Round trip: the manifest parser reads `to_hex(id)` back as `id`, with
   * any host byte order on either side.
   */
  lemma ParseToHex(id: Bits32, writer: ByteOrder, reader: ByteOrder)
    ensures ParseHex(ToHex(id, writer), reader) == Success(id)
  {
    PlainHexParses(ToHex(id, writer));
  }

  lemma HexDigitIsPlain(c: char)
    requires IsHexDigit(c)
    ensures c != '_' && c != 'x' && c != 'X' && c != '-' && c != '+'
  {
  }

  /** A non-empty run of bare hex digits parses to the number it spells. */
  lemma PlainHexParses(s: string)
    requires s != [] && forall i :: 0 <= i < |s| ==> IsHexDigit(s[i])
    ensures PyIntBase16(s) == Some(HexValue(s))
  {
    NothingToStrip(s);
    NoSignNoPrefix(s);
    PlainDigitGroups(s);
    var t := StripTrailing(StripLeading(s, IsIntSpace), IsIntSpace);
    assert t == s;
    var body := DigitsPart(Unsigned(t));
    assert body == s;
    assert DigitGroups(body);
    var magnitude: int := HexValue(RemoveUnderscores(body));
    assert magnitude == HexValue(s);
  }

  lemma NoSignNoPrefix(s: string)
    requires s != [] && forall i :: 0 <= i < |s| ==> IsHexDigit(s[i])
    ensures Unsigned(s) == s && DigitsPart(s) == s && s[0] != '-'
  {
    HexDigitIsPlain(s[0]);
    if |s| >= 2 {
      HexDigitIsPlain(s[1]);
    }
  }

  lemma NothingToStrip(s: string)
    requires s != [] && forall i :: 0 <= i < |s| ==> IsHexDigit(s[i])
    ensures StripTrailing(StripLeading(s, IsIntSpace), IsIntSpace) == s
  {
    assert !IsIntSpace(s[0]) && !IsIntSpace(s[|s| - 1]);
    assert StripLeading(s, IsIntSpace) == s;
  }

  lemma PlainDigitGroups(s: string)
    requires s != [] && forall i :: 0 <= i < |s| ==> IsHexDigit(s[i])
    ensures DigitGroups(s) && RemoveUnderscores(s) == s
  {
    forall i | 0 <= i < |s|
      ensures s[i] != '_'
    {
      HexDigitIsPlain(s[i]);
    }
  }

  /**
   * The per-entry conversion of `_parse_raw_manifest`, as a function value:
   * `int(_, 16)` refuses any value that is not a string.
   */
  function HexConverter(host: ByteOrder): Json -> Result<Bits32, ManifestError> {
    (value: Json) => if value.JString? then ParseHex(value.s, host) else Failure(NotText)
  }

  /**
   * `_parse_raw_manifest` as a function of the entries and of the per-entry
   * conversion: every entry is converted in order, the first failure is
   * raised, and a later entry with the same name overwrites an earlier one.
   */
  function ParseEntries(raw: RawManifest, convert: Json -> Result<Bits32, ManifestError>): (r: Result<Manifest, ManifestError>)
    ensures r.Failure? ==> exists k :: 0 <= k < |raw| && convert(raw[k].1) == Failure(r.error)
  {
    if raw == [] then Success(map[])
    else
      match ParseEntries(raw[..|raw| - 1], convert)
      case Failure(e) => Failure(e)
      case Success(m) =>
        match convert(raw[|raw| - 1].1)
        case Failure(e) => Failure(e)
        case Success(id) => Success(m[raw[|raw| - 1].0 := id])
  }

  /** The entries convert without error exactly when every value does. */
  lemma {:induction false} ParseEntriesSucceeds(raw: RawManifest, convert: Json -> Result<Bits32, ManifestError>)
    ensures ParseEntries(raw, convert).Success? <==>
            forall k :: 0 <= k < |raw| ==> convert(raw[k].1).Success?
  {
    if raw != [] {
      var init := raw[..|raw| - 1];
      ParseEntriesSucceeds(init, convert);
      assert forall k :: 0 <= k < |init| ==> init[k] == raw[k];
    }
  }

  /**
   * On failure the error is that of the first entry that does not convert.
   */
  lemma {:induction false} ParseEntriesFirstError(raw: RawManifest, convert: Json -> Result<Bits32, ManifestError>)
    requires ParseEntries(raw, convert).Failure?
    ensures exists j ::
              && 0 <= j < |raw|
              && convert(raw[j].1).Failure?
              && (forall k :: 0 <= k < j ==> convert(raw[k].1).Success?)
              && ParseEntries(raw, convert).error == convert(raw[j].1).error
  {
    var init := raw[..|raw| - 1];
    assert forall k :: 0 <= k < |init| ==> init[k] == raw[k];
    if ParseEntries(init, convert).Failure? {
      ParseEntriesFirstError(init, convert);
    } else {
      ParseEntriesSucceeds(init, convert);
      assert convert(raw[|raw| - 1].1).Failure?;
    }
  }

  /**
   * On success the manifest has exactly the input names, unchanged, and each
   * name maps to the converted value of the last entry with that name.
   */
  lemma ParseEntriesContents(raw: RawManifest, convert: Json -> Result<Bits32, ManifestError>)
    requires ParseEntries(raw, convert).Success?
    ensures ParseEntries(raw, convert).value.Keys == set k | 0 <= k < |raw| :: raw[k].0
    ensures forall k :: 0 <= k < |raw| && (forall k' :: k < k' < |raw| ==> raw[k'].0 != raw[k].0) ==>
              convert(raw[k].1).Success? &&
              ParseEntries(raw, convert).value[raw[k].0] == convert(raw[k].1).value
  {
    ParseEntriesKeys(raw, convert);
    ParseEntriesValues(raw, convert);
  }

  lemma {:induction false} ParseEntriesKeys(raw: RawManifest, convert: Json -> Result<Bits32, ManifestError>)
    requires ParseEntries(raw, convert).Success?
    ensures ParseEntries(raw, convert).value.Keys == set k | 0 <= k < |raw| :: raw[k].0
  {
    if raw != [] {
      var n := |raw| - 1;
      var init := raw[..n];
      ParseEntriesKeys(init, convert);
      assert forall k :: 0 <= k < n ==> init[k] == raw[k];
      assert (set k | 0 <= k < |raw| :: raw[k].0) == (set k | 0 <= k < |init| :: init[k].0) + {raw[n].0};
    }
  }

  lemma {:induction false} ParseEntriesValues(raw: RawManifest, convert: Json -> Result<Bits32, ManifestError>)
    requires ParseEntries(raw, convert).Success?
    ensures forall k :: 0 <= k < |raw| && (forall k' :: k < k' < |raw| ==> raw[k'].0 != raw[k].0) ==>
              convert(raw[k].1).Success? && raw[k].0 in ParseEntries(raw, convert).value &&
              ParseEntries(raw, convert).value[raw[k].0] == convert(raw[k].1).value
  {
    if raw != [] {
      var n := |raw| - 1;
      var init := raw[..n];
      ParseEntriesValues(init, convert);
      var mi := ParseEntries(init, convert).value;
      assert ParseEntries(raw, convert).value == mi[raw[n].0 := convert(raw[n].1).value];
      forall k | 0 <= k < |raw| && (forall k' :: k < k' < |raw| ==> raw[k'].0 != raw[k].0)
        ensures convert(raw[k].1).Success? && raw[k].0 in ParseEntries(raw, convert).value
                && ParseEntries(raw, convert).value[raw[k].0] == convert(raw[k].1).value
      {
        if k < n {
          assert init[k] == raw[k] && raw[n].0 != raw[k].0;
          assert forall k' :: k < k' < |init| ==> init[k'].0 != init[k].0;
        }
      }
    }
  }

  /**
   * The loop of `ManifestFactory._parse_raw_manifest`, for any per-entry
   * conversion: fill the manifest entry by entry and stop at the first
   * conversion that raises.
   */
  method ConvertEntries(raw: RawManifest, convert: Json -> Result<Bits32, ManifestError>)
    returns (r: Result<Manifest, ManifestError>)
    ensures r == ParseEntries(raw, convert)
  {
    var domainManifest: Manifest := map[];
    var i := 0;
    while i < |raw|
      invariant 0 <= i <= |raw|
      invariant ParseEntries(raw[..i], convert) == Success(domainManifest)
    {
      var name, hexValue := raw[i].0, raw[i].1;
      var id := convert(hexValue);
      ParseEntriesStep(raw, i, convert);
      if id.Failure? {
        PrefixFailureSticks(raw, i + 1, convert);
        assert raw[..|raw|] == raw;
        return Failure(id.error);
      }
      domainManifest := domainManifest[name := id.value];
      i := i + 1;
    }
    assert raw[..i] == raw;
    r := Success(domainManifest);
  }

  /** Extending a successful prefix by one entry converts that entry. */
  lemma ParseEntriesStep(raw: RawManifest, i: nat, convert: Json -> Result<Bits32, ManifestError>)
    requires i < |raw| && ParseEntries(raw[..i], convert).Success?
    ensures convert(raw[i].1).Failure? ==> ParseEntries(raw[..i + 1], convert) == Failure(convert(raw[i].1).error)
    ensures convert(raw[i].1).Success? ==>
              ParseEntries(raw[..i + 1], convert) == Success(ParseEntries(raw[..i], convert).value[raw[i].0 := convert(raw[i].1).value])
  {
    assert raw[..i + 1][..i] == raw[..i];
  }

  /** Once a prefix of the entries fails, the whole list fails the same way. */
  lemma {:induction false} PrefixFailureSticks(raw: RawManifest, n: nat, convert: Json -> Result<Bits32, ManifestError>)
    requires n <= |raw|
    requires ParseEntries(raw[..n], convert).Failure?
    ensures ParseEntries(raw, convert) == ParseEntries(raw[..n], convert)
    decreases |raw| - n
  {
    if n < |raw| {
      assert raw[..n + 1][..n] == raw[..n];
      PrefixFailureSticks(raw, n + 1, convert);
    } else {
      assert raw[..n] == raw;
    }
  }

  /**
   * `_parse_raw_manifest` on a decoded JSON value: `len()` refuses a
   * number, a bool or null, `items()` anything but an object, and an
   * object's entries are converted in order.
   */
  function ParseDocument(doc: Json, host: ByteOrder): Result<Manifest, ManifestError> {
    if !HasLen(doc) then Failure(NoLength)
    else if doc.JObject? then ParseEntries(doc.members, HexConverter(host))
    else Failure(NoItems)
  }

  /**
   * A document converts exactly when it is an object whose every value is
   * a string that `ParseHex` accepts.
   */
  lemma ParseDocumentSucceeds(doc: Json, host: ByteOrder)
    ensures ParseDocument(doc, host).Success? <==>
            && doc.JObject?
            && forall k :: 0 <= k < |doc.members| ==>
                 doc.members[k].1.JString? && ParseHex(doc.members[k].1.s, host).Success?
  {
    if doc.JObject? {
      ParseEntriesSucceeds(doc.members, HexConverter(host));
    }
  }

  /** `_parse_raw_manifest`: the `len()` and `items()` checks, then the conversion loop. */
  method ParseRawManifest(doc: Json, host: ByteOrder) returns (r: Result<Manifest, ManifestError>)
    ensures r == ParseDocument(doc, host)
  {
    if !HasLen(doc) {
      return Failure(NoLength);
    }
    if !doc.JObject? {
      return Failure(NoItems);
    }
    r := ConvertEntries(doc.members, HexConverter(host));
  }

  /**
   * The value `raw_manifest` holds after the sidecar step. It is the loaded
   * sidecar when `manif_file` is given, resolves, exists and loads, even if
   * the `len()` in the log line after the load raises: that exception is
   * swallowed with the value already assigned. Otherwise it is still the
   * empty dict: a failing `open` or `json.load` is swallowed too.
   */
  function SidecarDocument(meta: map<string, HeaderValue>, exrPath: string, env: Env): (doc: Json)
    ensures Truthy(doc) ==>
              && "manif_file" in meta
              && AsText(meta["manif_file"]) != ""
              && env.pathExists(ResolvePath(exrPath, AsText(meta["manif_file"])))
  {
    if "manif_file" in meta && AsText(meta["manif_file"]) != "" then
      var fullPath := ResolvePath(exrPath, AsText(meta["manif_file"]));
      if fullPath != "" && env.pathExists(fullPath) && env.readSidecar(fullPath).Some? then
        env.readSidecar(fullPath).value
      else JObject([])
    else JObject([])
  }

  /** Whether the header carries a non-empty `manifest` attribute. */
  predicate HasEmbedded(meta: map<string, HeaderValue>) {
    "manifest" in meta && AsText(meta["manifest"]) != ""
  }

  /**
   * What `ManifestFactory.create_from_metadata` returns for a layer's
   * metadata. A truthy sidecar value wins and the embedded manifest is not
   * looked at; a missing, refused, unreadable or falsy one falls through to
   * the embedded manifest, whose decode, parse, `len()` and conversion
   * errors escape; with neither, the manifest is empty.
   */
  predicate ManifestOutcome(meta: map<string, HeaderValue>, exrPath: string, env: Env, host: ByteOrder,
                            r: Result<Manifest, ManifestError>)
  {
    var side := SidecarDocument(meta, exrPath, env);
    && (Truthy(side) ==> r == ParseDocument(side, host))
    && (!Truthy(side) && !HasEmbedded(meta) ==> r == Success(map[]))
    && (!Truthy(side) && HasEmbedded(meta) ==>
          match meta["manifest"]
          case Text(_) => r == Failure(EmbeddedNotBytes)
          case Bytes(json) =>
            match env.loadsJson(json)
            case None => r == Failure(EmbeddedNotJson)
            case Some(doc) => r == ParseDocument(doc, host))
  }

  /** The outcome is a function of the metadata and the environment. */
  lemma ManifestOutcomeUnique(meta: map<string, HeaderValue>, exrPath: string, env: Env, host: ByteOrder,
                              r1: Result<Manifest, ManifestError>, r2: Result<Manifest, ManifestError>)
    requires ManifestOutcome(meta, exrPath, env, host, r1)
    requires ManifestOutcome(meta, exrPath, env, host, r2)
    ensures r1 == r2
  {
  }

  /** `ManifestFactory.create_from_metadata`. */
  method CreateFromMetadata(meta: map<string, HeaderValue>, exrPath: string, env: Env, host: ByteOrder)
    returns (r: Result<Manifest, ManifestError>)
    ensures ManifestOutcome(meta, exrPath, env, host, r)
  {
    var rawManifest: Json := JObject([]);
    if "manif_file" in meta && AsText(meta["manif_file"]) != "" {
      var manifestFile := AsText(meta["manif_file"]);
      var fullPath := ResolvePath(exrPath, manifestFile);
      if fullPath != "" && env.pathExists(fullPath) {
        var loaded := env.readSidecar(fullPath);
        if loaded.Some? {
          rawManifest := loaded.value;
        }
      }
    }
    if !Truthy(rawManifest) {
      if HasEmbedded(meta) {
        match meta["manifest"]
        case Text(_) =>
          return Failure(EmbeddedNotBytes);
        case Bytes(manifestString) =>
          var parsed := env.loadsJson(manifestString);
          if parsed.None? {
            return Failure(EmbeddedNotJson);
          }
          rawManifest := parsed.value;
          if !HasLen(rawManifest) {
            return Failure(NoLength);
          }
      } else {
        return Success(map[]);
      }
    }
    r := ParseRawManifest(rawManifest, host);
  }
}
