/**
 * `OpenExrRepository`: the header side of reading a Cryptomatte EXR file.
 * Header attributes are grouped into per-layer metadata by their key
 * (`_get_cryptomattes_from_header`), the ID/coverage channels of a layer
 * are found by name (`_identify_channels`), one layer is built per metadata
 * group (`_parse_layers`) and the pixel window is read off the data window
 * (`load_header`).
 *
 * Opening the file and decoding channel buffers are not part of this model:
 * a header is given as its string-valued attributes in header order, its
 * channel names in header order and its data window.
 */
module ExrRepository {
  import opened Wrappers
  import opened Bits
  import opened Strings
  import opened Paths
  import opened ValueObjects
  import opened Entities
  import opened Aggregates
  import opened Manifests

  /** `CRYPTO_METADATA_LEGAL_PREFIX`, tried in this order. */
  const LegalPrefixes: seq<string> := ["exr/cryptomatte/", "cryptomatte/"]

  /** The inclusive pixel bounds of the `dataWindow` attribute. */
  datatype Box = Box(minX: int, minY: int, maxX: int, maxY: int)

  /** What the repository reads from an EXR header. */
  datatype ExrHeader = ExrHeader(
    attributes: seq<(string, HeaderValue)>,
    channels: seq<string>,
    dataWindow: Box)

  // ---------------------------------------------------------------------
  // Grouping the header attributes by layer
  // ---------------------------------------------------------------------

  /** Where a Cryptomatte key belongs: its prefix, its metadata id and its field name. */
  datatype Slot = Slot(prefix: string, id: string, field: string)

  /**
   * The first legal prefix the key starts with. A key under
   * "exr/cryptomatte/" never also counts as one under "cryptomatte/".
   */
  function MatchPrefix(key: string): (r: Option<string>)
    ensures r.Some? ==> r.value in LegalPrefixes && StartsWith(key, r.value)
    ensures r.None? <==> forall p :: p in LegalPrefixes ==> !StartsWith(key, p)
    ensures r.Some? && r.value != LegalPrefixes[0] ==> !StartsWith(key, LegalPrefixes[0])
  {
    if StartsWith(key, LegalPrefixes[0]) then Some(LegalPrefixes[0])
    else if StartsWith(key, LegalPrefixes[1]) then Some(LegalPrefixes[1])
    else None
  }

  /** `numbered_key.split("/")[0]`: the metadata id. */
  function MetadataId(numberedKey: string): (id: string)
    ensures '/' !in id
  {
    Split(numberedKey)[0]
  }

  /** The second `/`-separated part of the numbered key, or "" when there is none. */
  function FieldName(numberedKey: string): (field: string)
    ensures '/' !in field
  {
    var parts := Split(numberedKey);
    if |parts| > 1 then parts[1] else ""
  }

  /**
   * The metadata id is the text before the first '/', the field name the
   * text between the first and the second, and any further parts are
   * dropped; a key with no '/' has the empty field name.
   */
  lemma KeyParts(id: string, field: string, more: string)
    requires '/' !in id && '/' !in field
    ensures MetadataId(id) == id && FieldName(id) == ""
    ensures MetadataId(id + "/" + field) == id && FieldName(id + "/" + field) == field
    ensures MetadataId(id + "/" + field + "/" + more) == id
    ensures FieldName(id + "/" + field + "/" + more) == field
  {
    SplitNoSlash(id);
    SplitFirst(id, field);
    SplitNoSlash(field);
    assert id + "/" + field + "/" + more == id + "/" + (field + "/" + more);
    SplitFirst(id, field + "/" + more);
    SplitFirst(field, more);
  }

  /** Where a header key goes, if it is a Cryptomatte key at all. */
  function KeySlot(key: string): (r: Option<Slot>)
    ensures r.Some? <==> MatchPrefix(key).Some?
    ensures r.Some? ==> r.value.prefix in LegalPrefixes && StartsWith(key, r.value.prefix)
  {
    match MatchPrefix(key)
    case None => None
    case Some(prefix) =>
      var numberedKey := key[|prefix|..];
      Some(Slot(prefix, MetadataId(numberedKey), FieldName(numberedKey)))
  }

  /**
   * The metadata groups: the ids in the order they were first seen (the
   * insertion order of the source's dict) and the fields of each id.
   */
  datatype Groups = Groups(order: seq<string>, fields: map<string, map<string, HeaderValue>>)

  /**
   * One step of the loop over the header: a key without a legal prefix is
   * ignored; otherwise its value is stored under its id and field, and the
   * group's "md_prefix" field is set to the prefix that matched.
   */
  function AddAttribute(g: Groups, key: string, value: HeaderValue): Groups {
    match KeySlot(key)
    case None => g
    case Some(slot) =>
      var group := if slot.id in g.fields then g.fields[slot.id] else map[];
      var order := if slot.id in g.fields then g.order else g.order + [slot.id];
      Groups(order, g.fields[slot.id := group[slot.field := value]["md_prefix" := Text(slot.prefix)]])
  }

  /** The groups made from the attributes, in header order. */
  function GroupAttributes(attributes: seq<(string, HeaderValue)>): Groups {
    if attributes == [] then Groups([], map[])
    else
      var last := attributes[|attributes| - 1];
      AddAttribute(GroupAttributes(attributes[..|attributes| - 1]), last.0, last.1)
  }

  /**
   * `_get_cryptomattes_from_header`: for each attribute, try the legal
   * prefixes in order and file the value under the first that matches.
   */
  method GetCryptomattesFromHeader(attributes: seq<(string, HeaderValue)>) returns (g: Groups)
    ensures g == GroupAttributes(attributes)
  {
    var order: seq<string> := [];
    var tempCryptomattes: map<string, map<string, HeaderValue>> := map[];
    var n := 0;
    while n < |attributes|
      invariant 0 <= n <= |attributes|
      invariant Groups(order, tempCryptomattes) == GroupAttributes(attributes[..n])
    {
      var key, value := attributes[n].0, attributes[n].1;
      assert attributes[..n + 1][..n] == attributes[..n];
      var p := 0;
      while p < |LegalPrefixes|
        invariant 0 <= p <= |LegalPrefixes|
        invariant forall q :: 0 <= q < p ==> !StartsWith(key, LegalPrefixes[q])
        invariant Groups(order, tempCryptomattes) == GroupAttributes(attributes[..n])
      {
        var prefix := LegalPrefixes[p];
        if StartsWith(key, prefix) {
          var numberedKey := key[|prefix|..];
          var parts := Split(numberedKey);
          var metadataId := parts[0];
          var partialKey := if |parts| > 1 then parts[1] else "";
          assert KeySlot(key) == Some(Slot(prefix, metadataId, partialKey));
          if metadataId !in tempCryptomattes {
            tempCryptomattes := tempCryptomattes[metadataId := map[]];
            order := order + [metadataId];
          }
          tempCryptomattes := tempCryptomattes[metadataId := tempCryptomattes[metadataId][partialKey := value]];
          tempCryptomattes := tempCryptomattes[metadataId := tempCryptomattes[metadataId]["md_prefix" := Text(prefix)]];
          assert Groups(order, tempCryptomattes) == GroupAttributes(attributes[..n + 1]);
          break;
        }
        p := p + 1;
      }
      n := n + 1;
    }
    assert attributes[..n] == attributes;
    g := Groups(order, tempCryptomattes);
  }

  /**
   * The groups are well formed: each id is listed once, exactly the ids
   * with fields are listed, and every group records a legal prefix.
   */
  ghost predicate WellFormed(g: Groups) {
    && (forall i, j :: 0 <= i < j < |g.order| ==> g.order[i] != g.order[j])
    && (forall id :: id in g.order <==> id in g.fields)
    && (forall id :: id in g.fields ==>
          "md_prefix" in g.fields[id] &&
          g.fields[id]["md_prefix"].Text? &&
          g.fields[id]["md_prefix"].text in LegalPrefixes)
  }

  lemma {:induction false} GroupAttributesWellFormed(attributes: seq<(string, HeaderValue)>)
    ensures WellFormed(GroupAttributes(attributes))
  {
    if attributes != [] {
      GroupAttributesWellFormed(attributes[..|attributes| - 1]);
    }
  }

  /** The slot of the `k`-th attribute's key. */
  function SlotAt(attributes: seq<(string, HeaderValue)>, k: int): Option<Slot>
    requires 0 <= k < |attributes|
  {
    KeySlot(attributes[k].0)
  }

  /** Exactly the metadata ids of the Cryptomatte keys get a group. */
  lemma {:induction false} GroupIds(attributes: seq<(string, HeaderValue)>, id: string)
    ensures id in GroupAttributes(attributes).fields <==>
            exists k :: 0 <= k < |attributes| && SlotAt(attributes, k).Some? && SlotAt(attributes, k).value.id == id
  {
    if attributes != [] {
      var n := |attributes| - 1;
      var init := attributes[..n];
      GroupIds(init, id);
      assert forall k :: 0 <= k < |init| ==> SlotAt(init, k) == SlotAt(attributes, k);
      assert GroupAttributes(attributes) == AddAttribute(GroupAttributes(init), attributes[n].0, attributes[n].1);
      if id in GroupAttributes(attributes).fields && id !in GroupAttributes(init).fields {
        assert SlotAt(attributes, n).Some? && SlotAt(attributes, n).value.id == id;
      }
    }
  }

  /**
   * Later keys overwrite earlier ones: a field other than "md_prefix" holds
   * the value of the last attribute filed under that id and field.
   */
  lemma {:induction false} GroupLastWriteWins(attributes: seq<(string, HeaderValue)>, k: int)
    requires 0 <= k < |attributes| && SlotAt(attributes, k).Some?
    requires SlotAt(attributes, k).value.field != "md_prefix"
    requires forall k' :: k < k' < |attributes| && SlotAt(attributes, k').Some? ==>
               SlotAt(attributes, k').value.id != SlotAt(attributes, k).value.id ||
               SlotAt(attributes, k').value.field != SlotAt(attributes, k).value.field
    ensures var slot := SlotAt(attributes, k).value;
            slot.id in GroupAttributes(attributes).fields &&
            slot.field in GroupAttributes(attributes).fields[slot.id] &&
            GroupAttributes(attributes).fields[slot.id][slot.field] == attributes[k].1
  {
    var n := |attributes| - 1;
    var init := attributes[..n];
    assert GroupAttributes(attributes) == AddAttribute(GroupAttributes(init), attributes[n].0, attributes[n].1);
    if k < n {
      assert forall j :: 0 <= j < |init| ==> SlotAt(init, j) == SlotAt(attributes, j);
      GroupLastWriteWins(init, k);
      var slot := SlotAt(attributes, k).value;
      var before := GroupAttributes(init).fields;
      assert before[slot.id][slot.field] == attributes[k].1;
      match SlotAt(attributes, n)
      case None =>
      case Some(other) =>
        assert other.id != slot.id || other.field != slot.field;
        var group := before[other.id := (if other.id in before then before[other.id] else map[])[other.field := attributes[n].1]["md_prefix" := Text(other.prefix)]];
        assert GroupAttributes(attributes).fields == group;
    }
  }

  /** A group's "md_prefix" is the prefix of the last key filed under its id. */
  lemma {:induction false} GroupPrefixIsLastMatch(attributes: seq<(string, HeaderValue)>, k: int)
    requires 0 <= k < |attributes| && SlotAt(attributes, k).Some?
    requires forall k' :: k < k' < |attributes| && SlotAt(attributes, k').Some? ==>
               SlotAt(attributes, k').value.id != SlotAt(attributes, k).value.id
    ensures var slot := SlotAt(attributes, k).value;
            slot.id in GroupAttributes(attributes).fields &&
            "md_prefix" in GroupAttributes(attributes).fields[slot.id] &&
            GroupAttributes(attributes).fields[slot.id]["md_prefix"] == Text(slot.prefix)
  {
    var n := |attributes| - 1;
    var init := attributes[..n];
    assert GroupAttributes(attributes) == AddAttribute(GroupAttributes(init), attributes[n].0, attributes[n].1);
    if k < n {
      assert forall j :: 0 <= j < |init| ==> SlotAt(init, j) == SlotAt(attributes, j);
      GroupPrefixIsLastMatch(init, k);
      var slot := SlotAt(attributes, k).value;
      var before := GroupAttributes(init).fields;
      match SlotAt(attributes, n)
      case None =>
      case Some(other) =>
        assert other.id != slot.id;
        var group := before[other.id := (if other.id in before then before[other.id] else map[])[other.field := attributes[n].1]["md_prefix" := Text(other.prefix)]];
        assert GroupAttributes(attributes).fields == group;
    }
  }

  /** An attribute whose key has no legal prefix changes nothing. */
  lemma IgnoredKey(attributes: seq<(string, HeaderValue)>, key: string, value: HeaderValue)
    requires forall p :: p in LegalPrefixes ==> !StartsWith(key, p)
    ensures GroupAttributes(attributes + [(key, value)]) == GroupAttributes(attributes)
  {
    assert (attributes + [(key, value)])[..|attributes|] == attributes;
  }

  // ---------------------------------------------------------------------
  // Identifying the channels of a layer
  // ---------------------------------------------------------------------

  /** A character `\d` matches (ASCII digits only). */
  predicate IsDigit(c: char) {
    '0' <= c <= '9'
  }

  /** One or more digits: what `\d+` matches. */
  predicate AllDigits(d: string) {
    d != [] && forall i :: 0 <= i < |d| ==> IsDigit(d[i])
  }

  /** The length of the run of digits that opens `s`. */
  function LeadingDigits(s: string): (n: nat)
    ensures n <= |s|
    ensures forall i :: 0 <= i < n ==> IsDigit(s[i])
    ensures n < |s| ==> !IsDigit(s[n])
  {
    if s != [] && IsDigit(s[0]) then 1 + LeadingDigits(s[1..]) else 0
  }

  /** The alternatives of `(red|r|R)`, in the order they are tried. */
  const Schemes: seq<string> := ["red", "r", "R"]

  /**
   * `\.(red|r|R)$` on the text after the digits; `$` matches at the end
   * and also just before a final newline.
   */
  function SchemeOf(tail: string): (r: Option<string>)
    ensures r.Some? ==> r.value in Schemes && (tail == "." + r.value || tail == "." + r.value + "\n")
    ensures r.None? ==> forall i :: 0 <= i < |Schemes| ==> tail != "." + Schemes[i] && tail != "." + Schemes[i] + "\n"
  {
    if tail == ".red" || tail == ".red\n" then Some("red")
    else if tail == ".r" || tail == ".r\n" then Some("r")
    else if tail == ".R" || tail == ".R\n" then Some("R")
    else None
  }

  /**
   * `re.compile(r'({name}\d+)\.(red|r|R)$').match(channel)` with the name
   * escaped: the channel prefix (group 1) and the scheme (group 2).
   */
  function MatchChannel(channel: string, name: string): (r: Option<(string, string)>)
    ensures r.Some? ==> StartsWith(channel, name) && |r.value.0| > |name| && StartsWith(r.value.0, name)
    ensures r.Some? ==> r.value.1 in Schemes
  {
    if !StartsWith(channel, name) then None
    else
      var rest := channel[|name|..];
      var n := LeadingDigits(rest);
      if n == 0 then None
      else
        match SchemeOf(rest[n..])
        case None => None
        case Some(scheme) => Some((name + rest[..n], scheme))
  }

  /**
   * A match is the layer name, one or more digits, a dot and a scheme,
   * with at most a final newline after it.
   */
  lemma MatchChannelSound(channel: string, name: string)
    requires MatchChannel(channel, name).Some?
    ensures var (prefix, scheme) := MatchChannel(channel, name).value;
            && scheme in Schemes
            && StartsWith(prefix, name) && AllDigits(prefix[|name|..])
            && (channel == prefix + "." + scheme || channel == prefix + "." + scheme + "\n")
  {
    var rest := channel[|name|..];
    var n := LeadingDigits(rest);
    var scheme := SchemeOf(rest[n..]).value;
    assert channel == name + rest[..n] + rest[n..];
    assert (name + rest[..n])[|name|..] == rest[..n];
  }

  /** Every such channel matches, with the expected groups. */
  lemma MatchChannelComplete(channel: string, name: string, digits: string, scheme: string, newline: bool)
    requires AllDigits(digits) && scheme in Schemes
    requires channel == name + digits + "." + scheme + (if newline then "\n" else "")
    ensures MatchChannel(channel, name) == Some((name + digits, scheme))
  {
    var tail := "." + scheme + (if newline then "\n" else "");
    assert channel == name + (digits + tail);
    assert channel[..|name|] == name;
    var rest := channel[|name|..];
    assert rest == digits + tail;
    assert rest[|digits|] == '.';
    var n := LeadingDigits(rest);
    assert forall i :: 0 <= i < |digits| ==> IsDigit(rest[i]);
    assert n == |digits|;
    assert rest[..n] == digits;
    assert rest[n..] == tail;
    SchemeOfDotted(scheme, newline);
  }

  lemma SchemeOfDotted(scheme: string, newline: bool)
    requires scheme in Schemes
    ensures SchemeOf("." + scheme + (if newline then "\n" else "")) == Some(scheme)
  {
    var tail := "." + scheme + (if newline then "\n" else "");
    if scheme == "red" {
      assert tail == (if newline then ".red\n" else ".red");
    } else if scheme == "r" {
      assert tail == (if newline then ".r\n" else ".r");
      assert |tail| < 4;
    } else {
      assert tail == (if newline then ".R\n" else ".R");
      assert |tail| < 4 && tail[1] != 'r';
    }
  }

  /**
   * The naming scheme: that of the last matching channel in header order,
   * "R" when none matches.
   */
  function LastScheme(channels: seq<string>, name: string): string {
    if channels == [] then "R"
    else
      match MatchChannel(channels[|channels| - 1], name)
      case Some(m) => m.1
      case None => LastScheme(channels[..|channels| - 1], name)
  }

  /** The distinct channel prefixes that match. */
  function MatchedPrefixes(channels: seq<string>, name: string): set<string> {
    if channels == [] then {}
    else
      var earlier := MatchedPrefixes(channels[..|channels| - 1], name);
      match MatchChannel(channels[|channels| - 1], name)
      case Some(m) => earlier + {m.0}
      case None => earlier
  }

  /** The matched prefixes are the first groups of the matching channels. */
  lemma {:induction false} MatchedPrefixesMeaning(channels: seq<string>, name: string, prefix: string)
    ensures prefix in MatchedPrefixes(channels, name) <==>
            exists k :: 0 <= k < |channels| && MatchChannel(channels[k], name).Some? && MatchChannel(channels[k], name).value.0 == prefix
  {
    if channels != [] {
      var init := channels[..|channels| - 1];
      MatchedPrefixesMeaning(init, name, prefix);
      assert forall k :: 0 <= k < |init| ==> init[k] == channels[k];
    }
  }

  /**
   * The scheme is "R" when no channel matches, and otherwise the scheme of
   * the last matching channel.
   */
  lemma {:induction false} LastSchemeMeaning(channels: seq<string>, name: string, k: int)
    requires 0 <= k < |channels| && MatchChannel(channels[k], name).Some?
    requires forall k' :: k < k' < |channels| ==> MatchChannel(channels[k'], name).None?
    ensures LastScheme(channels, name) == MatchChannel(channels[k], name).value.1
  {
    var init := channels[..|channels| - 1];
    if k < |channels| - 1 {
      assert forall j :: 0 <= j < |init| ==> init[j] == channels[j];
      LastSchemeMeaning(init, name, k);
    }
  }

  lemma {:induction false} LastSchemeDefault(channels: seq<string>, name: string)
    requires forall k :: 0 <= k < |channels| ==> MatchChannel(channels[k], name).None?
    ensures LastScheme(channels, name) == "R"
  {
    if channels != [] {
      var init := channels[..|channels| - 1];
      assert forall j :: 0 <= j < |init| ==> init[j] == channels[j];
      LastSchemeDefault(init, name);
    }
  }

  /** The four channel suffixes of a naming scheme. */
  function Suffixes(namingScheme: string): (r: seq<string>)
    ensures |r| == 4
    ensures namingScheme in Schemes ==> r[0] == namingScheme
    ensures namingScheme !in Schemes ==> r == ["R", "G", "B", "A"]
  {
    if namingScheme == "r" then ["r", "g", "b", "a"]
    else if namingScheme == "red" then ["red", "green", "blue", "alpha"]
    else ["R", "G", "B", "A"]
  }

  /** `f"{prefix}.{suffix}"` for each suffix in turn. */
  function Dotted(prefix: string, suffixes: seq<string>): (r: seq<string>)
    ensures |r| == |suffixes|
  {
    seq(|suffixes|, j requires 0 <= j < |suffixes| => prefix + "." + suffixes[j])
  }

  /** Every prefix in turn, each followed by every suffix. */
  function Expand(prefixes: seq<string>, suffixes: seq<string>): seq<string> {
    if prefixes == [] then []
    else Expand(prefixes[..|prefixes| - 1], suffixes) + Dotted(prefixes[|prefixes| - 1], suffixes)
  }

  /**
   * The expansion has four names per prefix: position `4i + j` holds the
   * `i`-th prefix, a dot and the `j`-th suffix.
   */
  lemma {:induction false} ExpandShape(prefixes: seq<string>, suffixes: seq<string>)
    requires |suffixes| == 4
    ensures |Expand(prefixes, suffixes)| == 4 * |prefixes|
    ensures forall i, j :: 0 <= i < |prefixes| && 0 <= j < 4 ==>
              Expand(prefixes, suffixes)[4 * i + j] == prefixes[i] + "." + suffixes[j]
  {
    if prefixes != [] {
      var init := prefixes[..|prefixes| - 1];
      ExpandShape(init, suffixes);
      var front := Expand(init, suffixes);
      var block := Dotted(prefixes[|prefixes| - 1], suffixes);
      assert Expand(prefixes, suffixes) == front + block;
      forall i, j | 0 <= i < |prefixes| && 0 <= j < 4
        ensures Expand(prefixes, suffixes)[4 * i + j] == prefixes[i] + "." + suffixes[j]
      {
        if i < |init| {
          assert init[i] == prefixes[i];
          assert (front + block)[4 * i + j] == front[4 * i + j];
        } else {
          assert (front + block)[4 * i + j] == block[j];
        }
      }
    }
  }

  /** The channel list `_identify_channels` returns for a layer name. */
  ghost function ChannelsOf(channels: seq<string>, name: string): seq<string> {
    Expand(SortedOf(MatchedPrefixes(channels, name)), Suffixes(LastScheme(channels, name)))
  }

  /**
   * The loop over the header's channels in `_identify_channels`: the set
   * of matching prefixes and the scheme of the last match ("R" if none).
   */
  method ScanChannels(channels: seq<string>, name: string) returns (pureChannelsPrefixes: set<string>, namingScheme: string)
    ensures pureChannelsPrefixes == MatchedPrefixes(channels, name)
    ensures namingScheme == LastScheme(channels, name)
  {
    pureChannelsPrefixes := {};
    namingScheme := "R";
    var i := 0;
    while i < |channels|
      invariant 0 <= i <= |channels|
      invariant pureChannelsPrefixes == MatchedPrefixes(channels[..i], name)
      invariant namingScheme == LastScheme(channels[..i], name)
    {
      assert channels[..i + 1][..i] == channels[..i];
      var m := MatchChannel(channels[i], name);
      if m.Some? {
        pureChannelsPrefixes := pureChannelsPrefixes + {m.value.0};
        namingScheme := m.value.1;
      }
      i := i + 1;
    }
    assert channels[..i] == channels;
  }

  /**
   * The expansion loop of `_identify_channels`: for each prefix in order,
   * append `prefix.suffix` for each suffix in order.
   */
  method ExpandPrefixes(sortedPrefixes: seq<string>, suffixes: seq<string>) returns (fullChannelList: seq<string>)
    ensures fullChannelList == Expand(sortedPrefixes, suffixes)
  {
    fullChannelList := [];
    var k := 0;
    while k < |sortedPrefixes|
      invariant 0 <= k <= |sortedPrefixes|
      invariant fullChannelList == Expand(sortedPrefixes[..k], suffixes)
    {
      var prefix := sortedPrefixes[k];
      var j := 0;
      while j < |suffixes|
        invariant 0 <= j <= |suffixes|
        invariant fullChannelList == Expand(sortedPrefixes[..k], suffixes) + Dotted(prefix, suffixes[..j])
      {
        assert Dotted(prefix, suffixes[..j + 1]) == Dotted(prefix, suffixes[..j]) + [prefix + "." + suffixes[j]];
        fullChannelList := fullChannelList + [prefix + "." + suffixes[j]];
        j := j + 1;
      }
      assert suffixes[..j] == suffixes;
      assert sortedPrefixes[..k + 1][..k] == sortedPrefixes[..k];
      k := k + 1;
    }
    assert sortedPrefixes[..k] == sortedPrefixes;
  }

  /**
   * `_identify_channels`: collect the prefixes of the matching channels and
   * the scheme of the last match, sort the prefixes, and expand each into
   * the four channels of the scheme.
   */
  method IdentifyChannels(channels: seq<string>, name: string) returns (fullChannelList: seq<string>, namingScheme: string)
    ensures namingScheme == LastScheme(channels, name)
    ensures fullChannelList == ChannelsOf(channels, name)
    ensures |fullChannelList| == 4 * |MatchedPrefixes(channels, name)|
  {
    var pureChannelsPrefixes;
    pureChannelsPrefixes, namingScheme := ScanChannels(channels, name);
    var sortedPrefixes := SortSet(pureChannelsPrefixes);
    fullChannelList := ExpandPrefixes(sortedPrefixes, Suffixes(namingScheme));
    ExpandShape(sortedPrefixes, Suffixes(namingScheme));
  }

  // ---------------------------------------------------------------------
  // Building the layers and the image
  // ---------------------------------------------------------------------

  /** `meta_data.get("name", meta_id)`, decoded when it is a byte string. */
  function LayerName(meta: map<string, HeaderValue>, metaId: string): string {
    if "name" in meta then AsText(meta["name"]) else metaId
  }

  /**
   * The layer `_parse_layers` builds for one metadata group: named after
   * the group's "name" field or else its id, with the channels and scheme
   * found for that name, the manifest made from the group's metadata and
   * the id as its `id_prefix`.
   */
  ghost predicate LayerFor(header: ExrHeader, exrPath: string, env: Env, host: ByteOrder,
                           meta: map<string, HeaderValue>, metaId: string, layer: Layer)
  {
    && layer.name == LayerName(meta, metaId)
    && layer.idPrefix == metaId
    && layer.channelNames == ChannelsOf(header.channels, layer.name)
    && layer.namingScheme == LastScheme(header.channels, layer.name)
    && ManifestOutcome(meta, exrPath, env, host, Success(layer.manifest))
  }

  /** The first `n` layers are those of the first `n` metadata groups, in order. */
  ghost predicate LayersUpTo(header: ExrHeader, exrPath: string, env: Env, host: ByteOrder, layers: seq<Layer>, n: nat)
  {
    var g := GroupAttributes(header.attributes);
    && n <= |g.order|
    && |layers| == n
    && forall i :: 0 <= i < n ==>
         g.order[i] in g.fields && LayerFor(header, exrPath, env, host, g.fields[g.order[i]], g.order[i], layers[i])
  }

  /**
   * What `_parse_layers` gives: one layer per metadata group, in the order
   * the groups were first seen; or the error of the first group whose
   * manifest cannot be made, after the layers of the groups before it.
   */
  ghost predicate ParsedLayers(header: ExrHeader, exrPath: string, env: Env, host: ByteOrder,
                               r: Result<seq<Layer>, ManifestError>)
  {
    var g := GroupAttributes(header.attributes);
    match r
    case Success(layers) => LayersUpTo(header, exrPath, env, host, layers, |g.order|)
    case Failure(e) =>
      exists built: seq<Layer> ::
        && |built| < |g.order|
        && LayersUpTo(header, exrPath, env, host, built, |built|)
        && g.order[|built|] in g.fields
        && ManifestOutcome(g.fields[g.order[|built|]], exrPath, env, host, Failure(e))
  }

  lemma LayersUpToExtend(header: ExrHeader, exrPath: string, env: Env, host: ByteOrder, layers: seq<Layer>, layer: Layer)
    requires LayersUpTo(header, exrPath, env, host, layers, |layers|)
    requires |layers| < |GroupAttributes(header.attributes).order|
    requires GroupAttributes(header.attributes).order[|layers|] in GroupAttributes(header.attributes).fields
    requires var g := GroupAttributes(header.attributes);
             LayerFor(header, exrPath, env, host, g.fields[g.order[|layers|]], g.order[|layers|], layer)
    ensures LayersUpTo(header, exrPath, env, host, layers + [layer], |layers| + 1)
  {
  }

  /** `_parse_layers`. */
  method ParseLayers(header: ExrHeader, exrPath: string, env: Env, host: ByteOrder)
    returns (r: Result<seq<Layer>, ManifestError>)
    ensures ParsedLayers(header, exrPath, env, host, r)
  {
    var layers: seq<Layer> := [];
    var cryptomattesMeta := GetCryptomattesFromHeader(header.attributes);
    GroupAttributesWellFormed(header.attributes);
    var i := 0;
    while i < |cryptomattesMeta.order|
      invariant 0 <= i <= |cryptomattesMeta.order|
      invariant LayersUpTo(header, exrPath, env, host, layers, i)
    {
      var metaId := cryptomattesMeta.order[i];
      var metaData := cryptomattesMeta.fields[metaId];
      var name := if "name" in metaData then AsText(metaData["name"]) else metaId;
      var channels, namingScheme := IdentifyChannels(header.channels, name);
      var manifest := CreateFromMetadata(metaData, exrPath, env, host);
      if manifest.Failure? {
        r := Failure(manifest.error);
        assert |layers| < |cryptomattesMeta.order| && cryptomattesMeta.order[|layers|] in cryptomattesMeta.fields;
        return;
      }
      var layer := Layer(name, manifest.value, channels, namingScheme, metaId);
      assert LayerFor(header, exrPath, env, host, metaData, metaId, layer);
      LayersUpToExtend(header, exrPath, env, host, layers, layer);
      layers := layers + [layer];
      i := i + 1;
    }
    r := Success(layers);
  }

  /** `load_header`'s window: inclusive bounds, so one more than the difference. */
  function WindowOf(box: Box): (r: PixelWindow)
    ensures box.minY + r.height - 1 == box.maxY && box.minX + r.width - 1 == box.maxX
  {
    PixelWindow(box.maxY - box.minY + 1, box.maxX - box.minX + 1)
  }

  /** The integers from `lo` to `hi`, both included. */
  ghost function Span(lo: int, hi: int): (r: set<int>)
    ensures forall x :: x in r <==> lo <= x <= hi
    decreases hi - lo
  {
    if lo > hi then {} else Span(lo, hi - 1) + {hi}
  }

  lemma {:induction false} SpanSize(lo: int, hi: int)
    requires lo <= hi + 1
    ensures |Span(lo, hi)| == hi - lo + 1
    decreases hi - lo + 1
  {
    if lo <= hi {
      SpanSize(lo, hi - 1);
      assert hi !in Span(lo, hi - 1);
    }
  }

  /**
   * For a data window whose maximum is not below its minimum, the width is
   * the number of pixel columns it covers and the height the number of
   * rows.
   */
  lemma WindowCountsPixels(box: Box)
    requires box.minX <= box.maxX && box.minY <= box.maxY
    ensures WindowOf(box).width == |Span(box.minX, box.maxX)| > 0
    ensures WindowOf(box).height == |Span(box.minY, box.maxY)| > 0
  {
    SpanSize(box.minX, box.maxX);
    SpanSize(box.minY, box.maxY);
  }

  /**
   * `load_header`: the image of the header, with its window and its
   * layers; a manifest error of `_parse_layers` escapes.
   */
  method LoadHeader(header: ExrHeader, exrPath: string, env: Env, host: ByteOrder)
    returns (r: Result<ExrImage, ManifestError>)
    ensures r.Success? ==>
              && r.value.filePath == exrPath
              && r.value.header == header.attributes
              && r.value.window == WindowOf(header.dataWindow)
              && ParsedLayers(header, exrPath, env, host, Success(r.value.layers))
    ensures r.Failure? ==> ParsedLayers(header, exrPath, env, host, Failure(r.error))
  {
    var window := WindowOf(header.dataWindow);
    var layers := ParseLayers(header, exrPath, env, host);
    if layers.Failure? {
      return Failure(layers.error);
    }
    r := Success(ExrImage(exrPath, header.attributes, window, layers.value));
  }
}
