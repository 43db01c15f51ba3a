/** The per-resource metadata record of the current service
    (`acdhOeaw\arche\thumbnails\ResourceMeta`): its projection from the
    repository's RDF description of a resource, its field defaults and its
    round trip through PHP's `serialize`/`unserialize`. */
module ResourceMetaModel {
  import opened Results
  import opened PhpStrings
  import opened PhpSerialize

  /** The schema properties the projection reads. */
  datatype Prop = TitleImage | Hash | Mime | Size | Class | ModDate

  /** What the RDF node says about a resource: the value of each property it
      carries (the first object value, as the dataset lookup returns it). */
  type PropMap = map<Prop, string>

  /** A `DateTimeImmutable`, as PHP stores it: the formatted date, the kind
      of time zone and the zone's name. Parsing a date string into one is
      outside the model (`parseDate` below is a parameter). */
  datatype DateValue = DateValue(date: string, timezoneType: int, timezone: string)

  /** The record. A typed PHP property without a default stays
      uninitialised until assigned, which `None` stands for. */
  datatype ResourceMeta = ResourceMeta(
    url: Option<string>,
    realUrl: Option<string>,
    repoHash: string,
    mime: string,
    sizeMb: int,
    cls: string,
    modDate: Option<DateValue>)

  const NoHash := "__no hash__"
  const NoClass := "__no class__"

  /** 2^20: `>> 20` turns bytes into whole megabytes. */
  const MiB: nat := 0x10_0000

  /** `new ResourceMeta()`: the declared defaults, nothing else set. */
  function Fresh(): (m: ResourceMeta)
    ensures m.url.None? && m.realUrl.None? && m.modDate.None?
    ensures m.repoHash == "" && m.mime == "" && m.sizeMb == 0 && m.cls == ""
  {
    ResourceMeta(None, None, "", "", 0, "", None)
  }

  /** PHP's `>>` on a 64-bit integer: an arithmetic shift, i.e. division
      rounding towards minus infinity. */
  function ShiftRight20(n: int): (r: int)
    ensures r * MiB <= n < (r + 1) * MiB
  {
    n / MiB
  }

  /** `fromDatasetNode`: the node IRI becomes `url`; `realUrl` is the title
      image when there is one and `url` otherwise; hash, mime and class
      default to their markers or ''; the size in bytes becomes whole
      megabytes; the modification date goes through `parseDate`
      (a missing one is parsed from the empty string). */
  function FromDatasetNode(node: string, props: PropMap, parseDate: string -> DateValue): (m: ResourceMeta)
    ensures m.url == Some(node)
    ensures TitleImage in props ==> m.realUrl == Some(props[TitleImage])
    ensures TitleImage !in props ==> m.realUrl == Some(node)
    ensures Hash in props ==> m.repoHash == props[Hash]
    ensures Hash !in props ==> m.repoHash == NoHash
    ensures Mime in props ==> m.mime == props[Mime]
    ensures Mime !in props ==> m.mime == ""
    ensures Class in props ==> m.cls == props[Class]
    ensures Class !in props ==> m.cls == NoClass
    ensures m.sizeMb * MiB <= PhpIntCast(Lookup(props, Size, "")) < (m.sizeMb + 1) * MiB
    ensures m.modDate == Some(parseDate(Lookup(props, ModDate, "")))
  {
    ResourceMeta(
      Some(node),
      Some(Lookup(props, TitleImage, node)),
      Lookup(props, Hash, NoHash),
      Lookup(props, Mime, ""),
      ShiftRight20(PhpIntCast(Lookup(props, Size, ""))),
      Lookup(props, Class, NoClass),
      Some(parseDate(Lookup(props, ModDate, ""))))
  }

  /** A node that carries only its modification date projects to the
      defaults: no hash marker, empty mime, no class marker, size 0, and the
      node itself as `realUrl`. */
  lemma FromDatasetNodeDefaults(node: string, date: string, parseDate: string -> DateValue)
    ensures var m := FromDatasetNode(node, map[ModDate := date], parseDate);
      m == ResourceMeta(Some(node), Some(node), NoHash, "", 0, NoClass, Some(parseDate(date)))
  {
    var props := map[ModDate := date];
    assert Size !in props;
    assert PhpIntCast("") == 0;
  }

  /** A size written as a whole number of megabytes, `n << 20` bytes in
      decimal, projects back to `n`. */
  lemma FromDatasetNodeSize(node: string, props: PropMap, n: nat, parseDate: string -> DateValue)
    requires n * MiB <= IntMax
    requires Size in props && props[Size] == NatToDec(n * MiB)
    ensures FromDatasetNode(node, props, parseDate).sizeMb == n
  {
    assert Pad(n * MiB, 0) == NatToDec(n * MiB);
    CastOfPad(n * MiB, 0);
    assert (n * MiB) / MiB == n;
  }

  // ---- serialize / unserialize ----

  const ClassName := "acdhOeaw\\arche\\thumbnails\\ResourceMeta"
  const DateClassName := "DateTimeImmutable"

  function DateToValue(d: DateValue): Value {
    VObj(DateClassName,
      FCons("date", VStr(d.date),
      FCons("timezone_type", VInt(d.timezoneType),
      FCons("timezone", VStr(d.timezone), FNil))))
  }

  /** Reading a `DateTimeImmutable` back: exactly its three properties, in
      the order PHP writes them. */
  function DateFromValue(v: Value): (r: Option<DateValue>)
    ensures r.Some? ==> DateToValue(r.value) == v
  {
    match v
    case VObj(c, FCons("date", VStr(d), FCons("timezone_type", VInt(t), FCons("timezone", VStr(z), FNil)))) =>
      if c == DateClassName then Some(DateValue(d, t, z)) else None
    case _ => None
  }

  /** A property list entry that PHP writes only for an initialised
      property. */
  function Optional(name: string, v: Option<Value>, more: Fields): Fields {
    match v
    case Some(x) => FCons(name, x, more)
    case None => more
  }

  function OptStr(s: Option<string>): Option<Value> {
    match s
    case Some(x) => Some(VStr(x))
    case None => None
  }

  function OptDate(d: Option<DateValue>): Option<Value> {
    match d
    case Some(x) => Some(DateToValue(x))
    case None => None
  }

  /** The object as `serialize` sees it: the declared properties in
      declaration order, uninitialised ones left out. */
  function ToValue(m: ResourceMeta): Value {
    VObj(ClassName,
      Optional("url", OptStr(m.url),
      Optional("realUrl", OptStr(m.realUrl),
      FCons("repoHash", VStr(m.repoHash),
      FCons("mime", VStr(m.mime),
      FCons("sizeMb", VInt(m.sizeMb),
      FCons("class", VStr(m.cls),
      Optional("modDate", OptDate(m.modDate), FNil))))))))
  }

  /** Assigning one unserialized property: a value of the wrong type is a
      failure; a name the class does not declare is ignored. */
  function SetProperty(m: ResourceMeta, name: string, v: Value): (r: Option<ResourceMeta>)
    ensures r.Some? && name == "mime" ==> v == VStr(r.value.mime)
    ensures r.Some? && name == "sizeMb" ==> v == VInt(r.value.sizeMb)
  {
    if name == "url" then
      if v.VStr? then Some(m.(url := Some(v.s))) else None
    else if name == "realUrl" then
      if v.VStr? then Some(m.(realUrl := Some(v.s))) else None
    else if name == "repoHash" then
      if v.VStr? then Some(m.(repoHash := v.s)) else None
    else if name == "mime" then
      if v.VStr? then Some(m.(mime := v.s)) else None
    else if name == "sizeMb" then
      if v.VInt? then Some(m.(sizeMb := v.i)) else None
    else if name == "class" then
      if v.VStr? then Some(m.(cls := v.s)) else None
    else if name == "modDate" then
      match DateFromValue(v)
      case Some(d) => Some(m.(modDate := Some(d)))
      case None => None
    else Some(m)
  }

  /** `unserialize` of an object: start from the defaults and assign the
      properties in the order they are written. */
  function SetProperties(m: ResourceMeta, fs: Fields): Option<ResourceMeta>
    decreases fs
  {
    match fs
    case FNil => Some(m)
    case FCons(name, v, more) =>
      match SetProperty(m, name, v)
      case Some(m1) => SetProperties(m1, more)
      case None => None
  }

  function FromValue(v: Value): Option<ResourceMeta> {
    if v.VObj? && v.cls == ClassName then SetProperties(Fresh(), v.fields) else None
  }

  function Serialize(m: ResourceMeta): string {
    EncodeValue(ToValue(m))
  }

  /** `ResourceMeta::deserialize`: `None` when the text is not a serialized
      object of this class (PHP fails with an error there). Text after the
      first complete value is ignored, as `unserialize` does. */
  function Deserialize(s: string): (r: Option<ResourceMeta>)
    ensures r.Some? ==> exists v, rest :: DecodeValue(s) == Some((v, rest)) && FromValue(v) == r
  {
    match DecodeValue(s)
    case Some((v, rest)) => FromValue(v)
    case None => None
  }

  lemma DateFromValueOf(d: DateValue)
    ensures DateFromValue(DateToValue(d)) == Some(d)
  {
  }

  /** Assigning the written properties to a fresh object rebuilds the
      record: each property is written once and with its own type. */
  lemma {:induction false} FromValueOf(m: ResourceMeta)
    ensures FromValue(ToValue(m)) == Some(m)
  {
    var f5 := Optional("modDate", OptDate(m.modDate), FNil);
    var f4 := FCons("class", VStr(m.cls), f5);
    var f3 := FCons("sizeMb", VInt(m.sizeMb), f4);
    var f2 := FCons("mime", VStr(m.mime), f3);
    var f1 := FCons("repoHash", VStr(m.repoHash), f2);
    var f0 := Optional("realUrl", OptStr(m.realUrl), f1);
    var fs := Optional("url", OptStr(m.url), f0);
    var m0 := Fresh().(url := m.url);
    var m1 := m0.(realUrl := m.realUrl);
    var m2 := m1.(repoHash := m.repoHash);
    var m3 := m2.(mime := m.mime);
    var m4 := m3.(sizeMb := m.sizeMb);
    var m5 := m4.(cls := m.cls);
    assert SetProperties(Fresh(), fs) == SetProperties(m0, f0);
    assert SetProperties(m0, f0) == SetProperties(m1, f1);
    assert SetProperties(m1, f1) == SetProperties(m2, f2);
    assert SetProperties(m2, f2) == SetProperties(m3, f3);
    assert SetProperties(m3, f3) == SetProperties(m4, f4);
    assert SetProperties(m4, f4) == SetProperties(m5, f5);
    if m.modDate.Some? {
      DateFromValueOf(m.modDate.value);
    }
    assert SetProperties(m5, f5) == Some(m);
  }

  /** `deserialize(serialize(m))` gives back `m`, for every record. */
  lemma DeserializeSerialize(m: ResourceMeta)
    ensures Deserialize(Serialize(m)) == Some(m)
  {
    DecodeValueOf(ToValue(m), "");
    assert Serialize(m) + "" == Serialize(m);
    FromValueOf(m);
  }
}
