/** The part of PHP's `serialize`/`unserialize` text format that a
    `ResourceMeta` object needs: strings (`s:<len>:"<chars>";`), integers
    (`i:<n>;`) and objects (`O:<len>:"<class>":<count>:{<name><value>...}`),
    with property names written as strings. Lengths count characters, one
    character per byte. */
module PhpSerialize {
  import opened Results
  import opened PhpStrings

  datatype Value =
    | VStr(s: string)
    | VInt(i: int)
    | VObj(cls: string, fields: Fields)

  /** The properties of an object in declaration order, as name/value pairs. */
  datatype Fields = FNil | FCons(name: string, val: Value, more: Fields)
  {
    function Count(): (n: nat)
      ensures FCons? ==> n == more.Count() + 1
    {
      if FNil? then 0 else more.Count() + 1
    }
  }

  /** `s:<len>:"<s>";` */
  function EncodeString(s: string): string {
    "s:" + NatToDec(|s|) + ":\"" + s + "\";"
  }

  function EncodeValue(v: Value): string
    decreases v
  {
    match v
    case VStr(s) => EncodeString(s)
    case VInt(i) => "i:" + Pad(i, 0) + ";"
    case VObj(c, fs) => "O:" + EncodeHeader(c, fs.Count()) + EncodeFields(fs) + "}"
  }

  /** `<len>:"<class>":<count>:{` */
  function EncodeHeader(c: string, count: nat): string {
    NatToDec(|c|) + ":\"" + c + "\":" + NatToDec(count) + ":{"
  }

  /** Each property as its name followed by its value. */
  function EncodeFields(fs: Fields): string
    decreases fs
  {
    match fs
    case FNil => ""
    case FCons(name, x, more) => EncodeString(name) + EncodeValue(x) + EncodeFields(more)
  }

  /** The rest of `s` after the literal prefix `lit`, if `s` starts with it. */
  function Expect(s: string, lit: string): (r: Option<string>)
    ensures r.Some? ==> |r.value| + |lit| == |s| && s == lit + r.value
  {
    if |lit| <= |s| && s[..|lit|] == lit then Some(s[|lit|..]) else None
  }

  /** A non-empty run of digits at the front of `s`, and what follows it. */
  function ParseNat(s: string): (r: Option<(nat, string)>)
    ensures r.Some? ==> |r.value.1| < |s|
  {
    var k := DigitRun(s);
    if k == 0 then None else Some((DecValue(s[..k]), s[k..]))
  }

  function ParseInt(s: string): (r: Option<(int, string)>)
    ensures r.Some? ==> |r.value.1| < |s|
  {
    if |s| > 0 && s[0] == '-' then
      var (n, rest) :- ParseNat(s[1..]);
      Some((-(n as int), rest))
    else
      ParseNat(s)
  }

  function DecodeString(s: string): (r: Option<(string, string)>)
    ensures r.Some? ==> |r.value.1| < |s|
  {
    var r1 :- Expect(s, "s:");
    var (n, r2) :- ParseNat(r1);
    var r3 :- Expect(r2, ":\"");
    if |r3| < n then None
    else
      var r4 :- Expect(r3[n..], "\";");
      Some((r3[..n], r4))
  }

  /** One value at the front of `s`, and what follows it; `None` when the
      text is not in the format. */
  function DecodeValue(s: string): (r: Option<(Value, string)>)
    ensures r.Some? ==> |r.value.1| < |s|
    decreases |s|, 0
  {
    if |s| >= 2 && s[..2] == "s:" then
      var (str, rest) :- DecodeString(s);
      Some((VStr(str), rest))
    else if |s| >= 2 && s[..2] == "i:" then
      var (i, r1) :- ParseInt(s[2..]);
      var r2 :- Expect(r1, ";");
      Some((VInt(i), r2))
    else if |s| >= 2 && s[..2] == "O:" then
      var (c, count, r1) :- DecodeHeader(s[2..]);
      var (fs, r2) :- DecodeFields(r1, count);
      var r3 :- Expect(r2, "}");
      Some((VObj(c, fs), r3))
    else None
  }

  /** Class name and property count of an object, up to its opening brace. */
  function DecodeHeader(s: string): (r: Option<(string, nat, string)>)
    ensures r.Some? ==> |r.value.2| < |s|
  {
    var (n, r1) :- ParseNat(s);
    var r2 :- Expect(r1, ":\"");
    if |r2| < n then None
    else
      var r3 :- Expect(r2[n..], "\":");
      var (count, r4) :- ParseNat(r3);
      var r5 :- Expect(r4, ":{");
      Some((r2[..n], count, r5))
  }

  /** `count` name/value pairs at the front of `s`. */
  function DecodeFields(s: string, count: nat): (r: Option<(Fields, string)>)
    ensures r.Some? ==> |r.value.1| <= |s| && r.value.0.Count() == count
    decreases |s|, 1, count
  {
    if count == 0 then Some((FNil, s))
    else
      match DecodeString(s)
      case None => None
      case Some(p1) =>
        match DecodeValue(p1.1)
        case None => None
        case Some(p2) =>
          match DecodeFields(p2.1, count - 1)
          case None => None
          case Some(p3) => Some((FCons(p1.0, p2.0, p3.0), p3.1))
  }

  lemma ExpectOf(lit: string, rest: string)
    ensures Expect(lit + rest, lit) == Some(rest)
  {
    assert (lit + rest)[..|lit|] == lit;
    assert (lit + rest)[|lit|..] == rest;
  }

  lemma ParseNatOf(n: nat, rest: string)
    requires |rest| == 0 || !IsDigit(rest[0])
    ensures ParseNat(NatToDec(n) + rest) == Some((n, rest))
  {
    var ds := NatToDec(n);
    DigitRunOf(ds, rest);
    assert (ds + rest)[..|ds|] == ds;
    assert (ds + rest)[|ds|..] == rest;
    DecValueOfNatToDec(n);
  }

  lemma ParseIntOf(i: int, rest: string)
    requires |rest| == 0 || !IsDigit(rest[0])
    ensures ParseInt(Pad(i, 0) + rest) == Some((i, rest))
  {
    var mag := NatToDec(Abs(i));
    if i < 0 {
      assert Pad(i, 0) == "-" + mag;
      var s := Pad(i, 0) + rest;
      assert s[1..] == mag + rest;
      ParseNatOf(Abs(i), rest);
    } else {
      assert Pad(i, 0) == mag;
      ParseNatOf(i, rest);
    }
  }

  lemma {:induction false} DecodeStringOf(str: string, rest: string)
    ensures DecodeString(EncodeString(str) + rest) == Some((str, rest))
  {
    var n := NatToDec(|str|);
    var s := EncodeString(str) + rest;
    var r3 := str + ("\";" + rest);
    var r2 := ":\"" + r3;
    var r1 := n + r2;
    assert s == "s:" + r1;
    ExpectOf("s:", r1);
    assert Expect(s, "s:") == Some(r1);
    ParseNatOf(|str|, r2);
    assert ParseNat(r1) == Some((|str|, r2));
    ExpectOf(":\"", r3);
    assert Expect(r2, ":\"") == Some(r3);
    assert r3[..|str|] == str;
    assert r3[|str|..] == "\";" + rest;
    ExpectOf("\";", rest);
    assert Expect(r3[|str|..], "\";") == Some(rest);
  }

  /** Decoding undoes encoding, whatever text follows. */
  lemma {:induction false} DecodeValueOf(v: Value, rest: string)
    ensures DecodeValue(EncodeValue(v) + rest) == Some((v, rest))
    decreases v, 1
  {
    match v
    case VStr(str) =>
      var s := EncodeValue(v) + rest;
      assert s[..2] == "s:";
      DecodeStringOf(str, rest);
    case VInt(i) =>
      var s := EncodeValue(v) + rest;
      var r1 := ";" + rest;
      assert s[..2] == "i:";
      assert s[2..] == Pad(i, 0) + r1;
      ParseIntOf(i, r1);
      assert ParseInt(s[2..]) == Some((i, r1));
      ExpectOf(";", rest);
      assert Expect(r1, ";") == Some(rest);
    case VObj(c, fs) =>
      DecodeObjectOf(v, rest);
  }

  lemma DecodeHeaderOf(c: string, count: nat, rest: string)
    ensures DecodeHeader(EncodeHeader(c, count) + rest) == Some((c, count, rest))
  {
    var s := EncodeHeader(c, count) + rest;
    var r4 := ":{" + rest;
    var r3 := NatToDec(count) + r4;
    var r2 := c + ("\":" + r3);
    var r1 := ":\"" + r2;
    assert s == NatToDec(|c|) + r1;
    ParseNatOf(|c|, r1);
    assert ParseNat(s) == Some((|c|, r1));
    ExpectOf(":\"", r2);
    assert Expect(r1, ":\"") == Some(r2);
    assert r2[..|c|] == c;
    assert r2[|c|..] == "\":" + r3;
    ExpectOf("\":", r3);
    assert Expect(r2[|c|..], "\":") == Some(r3);
    ParseNatOf(count, r4);
    assert ParseNat(r3) == Some((count, r4));
    ExpectOf(":{", rest);
  }

  lemma {:induction false} DecodeObjectOf(v: Value, rest: string)
    requires v.VObj?
    ensures DecodeValue(EncodeValue(v) + rest) == Some((v, rest))
    decreases v, 0
  {
    var c, fs := v.cls, v.fields;
    var s := EncodeValue(v) + rest;
    var r2 := "}" + rest;
    var r1 := EncodeFields(fs) + r2;
    assert s == "O:" + (EncodeHeader(c, fs.Count()) + r1);
    assert s[..2] == "O:";
    assert s[2..] == EncodeHeader(c, fs.Count()) + r1;
    DecodeHeaderOf(c, fs.Count(), r1);
    DecodeFieldsOf(fs, r2);
    ExpectOf("}", rest);
  }

  lemma {:induction false} DecodeFieldsOf(fs: Fields, rest: string)
    ensures DecodeFields(EncodeFields(fs) + rest, fs.Count()) == Some((fs, rest))
    decreases fs, 1
  {
    match fs
    case FNil =>
      assert EncodeFields(fs) + rest == rest;
    case FCons(name, x, more) =>
      var tail := EncodeFields(more) + rest;
      var r1 := EncodeValue(x) + tail;
      DecodeFieldNameOf(name, x, more, rest);
      DecodeValueOf(x, tail);
      DecodeFieldsOf(more, rest);
      DecodeFieldsCons(EncodeFields(fs) + rest, fs.Count(), name, r1, x, tail, more, rest);
  }

  lemma DecodeFieldNameOf(name: string, x: Value, more: Fields, rest: string)
    ensures DecodeString(EncodeFields(FCons(name, x, more)) + rest)
         == Some((name, EncodeValue(x) + (EncodeFields(more) + rest)))
  {
    var r1 := EncodeValue(x) + (EncodeFields(more) + rest);
    assert EncodeFields(FCons(name, x, more)) + rest == EncodeString(name) + r1;
    DecodeStringOf(name, r1);
  }

  /** One name/value pair in front of `count - 1` further pairs. */
  lemma DecodeFieldsCons(s: string, count: nat, name: string, r1: string, x: Value, r2: string,
                         fs: Fields, r3: string)
    requires count > 0
    requires DecodeString(s) == Some((name, r1))
    requires DecodeValue(r1) == Some((x, r2))
    requires DecodeFields(r2, count - 1) == Some((fs, r3))
    ensures DecodeFields(s, count) == Some((FCons(name, x, fs), r3))
  {
  }
}
