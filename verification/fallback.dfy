/** The decisions of the fallback handler (`handler\Fallback`) that do not
    depend on drawing: the label derived from the mime type or the class,
    the choice among three icon sources, and the integer factor by which a
    generic icon is drawn larger before it is scaled back down. The drawing
    itself is not modelled. */
module FallbackIcon {
  import opened Results
  import opened PhpStrings
  import Dispatch

  /** The fallback declares no mime type and does not keep the aspect
      ratio. */
  lemma FallbackDescriptor()
    ensures Dispatch.FallbackHandler.mimes == [] && !Dispatch.FallbackHandler.keepsAspect
    ensures forall reg :: Dispatch.RegisterMimes(reg, Dispatch.FallbackHandler.mimes, Dispatch.FallbackHandler) == reg
  {
  }

  /** What stands in for a missing class. */
  const DefaultClass := "Collection"

  /** The first `/`-separated segment of `t`: its text up to the first `/`,
      or all of it. */
  lemma {:induction false} ExplodeFirst(t: string)
    ensures var p := Explode('/', t)[0];
      |p| <= |t| && p == t[..|p|] && (|p| == |t| || t[|p|] == '/')
  {
    if '/' in t {
      var i := IndexOf(t, '/');
      assert Explode('/', t)[0] == t[..i];
    } else {
      assert t[..|t|] == t;
    }
  }

  /** The second `/`-separated segment of `src`: the text after its first
      `/`, up to the next one or to the end. */
  lemma SecondSegment(src: string)
    requires '/' in src
    ensures var i := IndexOf(src, '/');
      var p := Explode('/', src)[1];
      i + 1 + |p| <= |src| && p == src[i + 1..i + 1 + |p|] &&
      (i + 1 + |p| == |src| || src[i + 1 + |p|] == '/')
  {
    var i := IndexOf(src, '/');
    var t := src[i + 1..];
    assert Explode('/', src)[1] == Explode('/', t)[0];
    ExplodeFirst(t);
    var p := Explode('/', t)[0];
    assert t[..|p|] == src[i + 1..i + 1 + |p|];
  }

  /** What the label is cut from: the mime type, or for an empty one
      (`''` or `'0'`) the class IRI without everything up to its last `/`
      or `#`. */
  function LabelSource(mime: string, cls: Option<string>): string {
    if PhpEmpty(mime) then StripIriPrefix(cls.GetOr(DefaultClass)) else mime
  }

  /** The second `/`-separated segment when there is one, else the whole
      text. */
  function Segment(src: string): (r: string)
    ensures '/' !in r
    ensures '/' !in src ==> r == src
    ensures '/' in src ==>
      var i := IndexOf(src, '/');
      i + 1 + |r| <= |src| && r == src[i + 1..i + 1 + |r|] &&
      (i + 1 + |r| == |src| || src[i + 1 + |r|] == '/')
  {
    var parts := Explode('/', src);
    if |parts| > 1 then
      SecondSegment(src);
      parts[1]
    else parts[0]
  }

  /** The label the icon shows: for a mime type the part after its first
      `/` up to the next one, or the whole type when it has no `/`; for a
      class IRI its local name, cut the same way. */
  function Label(mime: string, cls: Option<string>): (r: string)
    ensures '/' !in r
    ensures var src := LabelSource(mime, cls);
      ('/' !in src ==> r == src) &&
      ('/' in src ==>
        var i := IndexOf(src, '/');
        i + 1 + |r| <= |src| && r == src[i + 1..i + 1 + |r|] &&
        (i + 1 + |r| == |src| || src[i + 1 + |r|] == '/'))
  {
    Segment(LabelSource(mime, cls))
  }

  /** An IRI whose local name follows its last `/` or `#` loses everything
      up to that separator. */
  lemma StripIriPrefixOf(prefix: string, local: string)
    requires |prefix| > 0 && IsPathSep(prefix[|prefix| - 1]) && '\n' !in prefix
    requires forall c :: c in local ==> !IsPathSep(c) && c != '\n'
    ensures StripIriPrefix(prefix + local) == local
  {
    var s := prefix + local;
    assert forall j :: |prefix| <= j < |s| ==> s[j] == local[j - |prefix|] && local[j - |prefix|] in local;
    assert forall j :: |prefix| <= j < |s| ==> !IsPathSep(s[j]);
    assert s[|prefix| - 1] == prefix[|prefix| - 1];
    assert '\n' !in s;
    assert LineEnd(s) == |s|;
    assert LastSepBefore(s, |s|) == Some(|prefix| - 1);
    assert s[|prefix|..] == local;
  }

  /** Without a mime type, the label is the local name of the class IRI. */
  lemma LabelOfClass(mime: string, prefix: string, local: string)
    requires PhpEmpty(mime)
    requires |prefix| > 0 && IsPathSep(prefix[|prefix| - 1]) && '\n' !in prefix
    requires forall c :: c in local ==> !IsPathSep(c) && c != '\n'
    ensures Label(mime, Some(prefix + local)) == local
  {
    StripIriPrefixOf(prefix, local);
    assert '/' !in local;
  }

  /** A mime type `type/subtype` is labelled by its subtype. */
  lemma LabelOfMime(kind: string, subtype: string, cls: Option<string>)
    requires '/' !in kind && '/' !in subtype
    ensures Label(kind + "/" + subtype, cls) == subtype
  {
    var src := kind + "/" + subtype;
    assert src == kind + ['/'] + subtype;
    IndexOfJoin(kind, '/', subtype);
    assert src[|kind|] == '/';
    assert !PhpEmpty(src);
    assert Explode('/', src) == [src[..|kind|]] + Explode('/', subtype);
  }

  /** The first `c` of `a + [c] + b`, when `a` holds none, sits right after
      `a`. */
  lemma IndexOfJoin(a: string, c: char, b: string)
    requires c !in a
    ensures var s := a + [c] + b; c in s && IndexOf(s, c) == |a| && s[|a| + 1..] == b
  {
    var s := a + [c] + b;
    assert s[|a|] == c;
    assert s[|a| + 1..] == b;
  }

  /** The class IRI of the handler's map example. */
  lemma LabelExample()
    ensures Label("", Some("https://foo/bar#" + "Publication")) == "Publication"
  {
    var prefix, local := "https://foo/bar#", "Publication";
    assert prefix[|prefix| - 1] == '#';
    assert forall c :: c in local ==> !IsPathSep(c) && c != '\n';
    LabelOfClass("", prefix, local);
  }

  /** Where the icon comes from. */
  datatype IconSource =
    | FromMap(imagePath: string)
    | FromTemplate(templatePath: string, caption: string)
    | Generic(caption: string)

  /** The configured icon for the label `name`, else the label drawn on the
      template image when one is configured, else the generic drawing. */
  function ChooseIcon(name: string, fallbackMap: map<string, string>, fallbackImage: Option<string>)
    : (r: IconSource)
    ensures name in fallbackMap <==> r.FromMap?
    ensures r.FromMap? ==> r.imagePath == fallbackMap[name]
    ensures r.FromTemplate? <==> name !in fallbackMap && fallbackImage.Some?
    ensures r.FromTemplate? ==> r == FromTemplate(fallbackImage.value, name)
    ensures r.Generic? ==> r.caption == name
  {
    if name in fallbackMap then FromMap(fallbackMap[name])
    else match fallbackImage
      case Some(p) => FromTemplate(p, name)
      case None => Generic(name)
  }

  /** `createThumbnail` up to the drawing: the label, then the icon source. */
  function FallbackIconFor(mime: string, cls: Option<string>, fallbackMap: map<string, string>,
                           fallbackImage: Option<string>): (r: IconSource)
    ensures !r.FromMap? ==> r.caption == Label(mime, cls) && '/' !in r.caption
    ensures r.FromMap? ==> Label(mime, cls) in fallbackMap
  {
    ChooseIcon(Label(mime, cls), fallbackMap, fallbackImage)
  }

  /** The generic drawing is made at least 400 pixels along its shorter
      side. */
  const MinDrawSide := 400

  datatype UpscaleError = DivisionByZero

  /** `400 / min(w, h)`, then 1 when that is at most 1 and its ceiling
      otherwise. A zero side divides by zero, which PHP raises as an error;
      a negative side gives a negative quotient and so the factor 1. */
  function Upscale(width: int, height: int): (r: Result<int, UpscaleError>)
    ensures var m := if width < height then width else height;
      (m == 0 <==> r.Err?) &&
      (m < 0 ==> r == Ok(1)) &&
      (m > 0 ==> r.Ok? && r.value >= 1 && r.value * m >= MinDrawSide &&
                 (r.value == 1 || (r.value - 1) * m < MinDrawSide))
  {
    var m := if width < height then width else height;
    if m == 0 then Err(DivisionByZero)
    else if m < 0 || MinDrawSide <= m then Ok(1)
    else
      var q := (MinDrawSide + m - 1) / m;
      CeilDiv(MinDrawSide, m);
      Ok(q)
  }

  /** `(a + m - 1) / m` is the least `q` with `q * m >= a`. */
  lemma CeilDiv(a: nat, m: nat)
    requires m > 0
    ensures var q := (a + m - 1) / m; q * m >= a && (q == 0 || (q - 1) * m < a)
  {
    var q := (a + m - 1) / m;
    var r := (a + m - 1) % m;
    assert q * m + r == a + m - 1;
  }
}
