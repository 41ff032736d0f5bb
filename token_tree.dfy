/**
 * The design-token tree that the colour extractor walks, and the pure
 * specification of what the walk collects.
 *
 * A parsed JSON document is a tree: an object (or array) maps keys to
 * children, in the order `for...in` enumerates them; `null` is also of
 * `typeof` "object" but has no keys; strings, numbers and booleans are
 * scalars. A colour token is a record holding the scalar field
 * `type: "color"`; the extractor names it after the keys leading to the
 * record and copies the record's `value` field.
 */
module TokenTree {
  import opened Text

  /** A JSON scalar. */
  datatype Primitive = Str(text: string) | Num(number: real) | Bool(truth: bool)

  /** A JSON value. Arrays are mappings whose keys are the indices. */
  datatype Node =
    | Scalar(prim: Primitive)
    | Mapping(entries: seq<(string, Node)>)
    | Null

  /** `typeof v === 'object'`: objects, arrays and null. */
  predicate IsObject(v: Node)
    ensures IsObject(v) <==> !v.Scalar?
  {
    v.Mapping? || v.Null?
  }

  /** The keys `for...in` visits, with their values, in enumeration order. */
  function Entries(n: Node): (es: seq<(string, Node)>)
    ensures !IsObject(n) ==> es == []
    ensures n.Null? ==> es == []
  {
    if n.Mapping? then n.entries else []
  }

  /** Reading a property: the value under `key`, or None for `undefined`. */
  function Lookup(record: seq<(string, Node)>, key: string): (r: Option<Node>)
    ensures r.Some? <==> exists i :: 0 <= i < |record| && record[i].0 == key
    ensures r.Some? ==> (key, r.value) in record
  {
    if record == [] then None
    else if record[0].0 == key then Some(record[0].1)
    else
      var rest := Lookup(record[1..], key);
      assert forall i :: 1 <= i < |record| ==> record[i] == record[1..][i - 1];
      rest
  }

  /** The scalar field that marks a colour token: key "type", value "color". */
  predicate IsColorMarker(key: string, v: Node)
    ensures IsColorMarker(key, v) ==> !IsObject(v)
  {
    key == "type" && v == Scalar(Str("color"))
  }

  /** `parts.join(sep)`. */
  function Join(parts: seq<string>, sep: string): (r: string)
    ensures parts != [] ==> parts[0] <= r
  {
    if parts == [] then ""
    else if |parts| == 1 then parts[0]
    else Join(parts[..|parts| - 1], sep) + sep + parts[|parts| - 1]
  }

  /** `['colors', ...keys].join('.')`. */
  function Name(keys: seq<string>): (r: string)
    ensures "colors" <= r
    ensures keys == [] ==> r == "colors"
  {
    assert (["colors"] + keys)[0] == "colors";
    Join(["colors"] + keys, ".")
  }

  /** One extracted colour: its dotted name and the record's `value` field. */
  datatype ColorToken = ColorToken(name: string, value: Option<Node>)

  /** The colours found in `n`, whose ancestor keys are `keys`, in the order
      the walk finds them. */
  function Extract(n: Node, keys: seq<string>): (r: seq<ColorToken>)
    ensures Entries(n) == [] ==> r == []
    decreases n, 1
  {
    ExtractFrom(n, 0, keys)
  }

  /** The colours found in the entries of `n` from index `i` on. */
  function ExtractFrom(n: Node, i: nat, keys: seq<string>): (r: seq<ColorToken>)
    decreases n, 0, |Entries(n)| - i
  {
    match n
    case Mapping(es) =>
      if i < |es| then
        assert es[i] in es;
        var (key, v) := es[i];
        var here :=
          if IsObject(v) then Extract(v, keys + [key])
          else if IsColorMarker(key, v) then [ColorToken(Name(keys), Lookup(es, "value"))]
          else [];
        here + ExtractFrom(n, i + 1, keys)
      else []
    case _ => []
  }

  // ---------------------------------------------------------------------
  // An independent description: every field of the tree in pre-order.

  /** A field met during the walk: the keys above its record, the record
      itself, and the field's key and value. */
  datatype Field = Field(keys: seq<string>, record: seq<(string, Node)>, key: string, value: Node)

  /** Every field of `n` (ancestor keys `keys`) in depth-first pre-order:
      a field comes before the fields nested inside it. */
  function Fields(n: Node, keys: seq<string>): seq<Field>
    decreases n, 1
  {
    FieldsFrom(n, 0, keys)
  }

  function FieldsFrom(n: Node, i: nat, keys: seq<string>): seq<Field>
    decreases n, 0, |Entries(n)| - i
  {
    match n
    case Mapping(es) =>
      if i < |es| then
        assert es[i] in es;
        var (key, v) := es[i];
        [Field(keys, es, key, v)]
        + (if IsObject(v) then Fields(v, keys + [key]) else [])
        + FieldsFrom(n, i + 1, keys)
      else []
    case _ => []
  }

  predicate IsColorField(f: Field) {
    IsColorMarker(f.key, f.value)
  }

  function TokenOf(f: Field): ColorToken {
    ColorToken(Name(f.keys), Lookup(f.record, "value"))
  }

  /** One token per colour-marker field, in the order of the fields. */
  function TokensOf(fs: seq<Field>): (ts: seq<ColorToken>)
    ensures |ts| <= |fs|
  {
    if fs == [] then []
    else (if IsColorField(fs[0]) then [TokenOf(fs[0])] else []) + TokensOf(fs[1..])
  }

  lemma {:induction false} TokensOfConcat(a: seq<Field>, b: seq<Field>)
    ensures TokensOf(a + b) == TokensOf(a) + TokensOf(b)
    decreases |a|
  {
    if a != [] {
      assert (a + b)[1..] == a[1..] + b;
      TokensOfConcat(a[1..], b);
    } else {
      assert a + b == b;
    }
  }

  /** The walk emits exactly one token per `type: "color"` field, in
      pre-order, and nothing for any other field. */
  lemma {:induction false} ExtractIsTokensOfFields(n: Node, keys: seq<string>)
    ensures Extract(n, keys) == TokensOf(Fields(n, keys))
    decreases n, 1
  {
    ExtractFromIsTokensOfFields(n, 0, keys);
  }

  lemma {:induction false} ExtractFromIsTokensOfFields(n: Node, i: nat, keys: seq<string>)
    ensures ExtractFrom(n, i, keys) == TokensOf(FieldsFrom(n, i, keys))
    decreases n, 0, |Entries(n)| - i
  {
    if n.Mapping? && i < |n.entries| {
      var es := n.entries;
      assert es[i] in es;
      var key, v := es[i].0, es[i].1;
      var f := Field(keys, es, key, v);
      var nested := if IsObject(v) then Fields(v, keys + [key]) else [];
      var here :=
        if IsObject(v) then Extract(v, keys + [key])
        else if IsColorMarker(key, v) then [ColorToken(Name(keys), Lookup(es, "value"))]
        else [];
      assert ExtractFrom(n, i, keys) == here + ExtractFrom(n, i + 1, keys);
      assert FieldsFrom(n, i, keys) == [f] + nested + FieldsFrom(n, i + 1, keys);
      assert TokensOf([f] + nested) == here by {
        TokensOfConcat([f], nested);
        assert [f][1..] == [];
        if IsObject(v) {
          ExtractIsTokensOfFields(v, keys + [key]);
        } else {
          assert nested == [];
        }
      }
      TokensOfConcat([f] + nested, FieldsFrom(n, i + 1, keys));
      ExtractFromIsTokensOfFields(n, i + 1, keys);
    }
  }

  /** Every field lies below the keys the walk started from. */
  lemma {:induction false} FieldsExtendKeys(n: Node, keys: seq<string>)
    ensures forall f :: f in Fields(n, keys) ==> keys <= f.keys
    decreases n, 1
  {
    FieldsFromExtendKeys(n, 0, keys);
  }

  lemma {:induction false} FieldsFromExtendKeys(n: Node, i: nat, keys: seq<string>)
    ensures forall f :: f in FieldsFrom(n, i, keys) ==> keys <= f.keys
    decreases n, 0, |Entries(n)| - i
  {
    match n
    case Mapping(es) =>
      if i < |es| {
        assert es[i] in es;
        var (key, v) := es[i];
        if IsObject(v) {
          FieldsExtendKeys(v, keys + [key]);
          assert forall f :: f in Fields(v, keys + [key]) ==> keys <= f.keys by {
            forall f | f in Fields(v, keys + [key]) ensures keys <= f.keys {
              assert keys <= keys + [key];
            }
          }
        }
        FieldsFromExtendKeys(n, i + 1, keys);
      }
    case _ =>
  }

  // ---------------------------------------------------------------------
  // Names.

  /** Joining one more part appends the separator and that part. */
  lemma JoinSnoc(parts: seq<string>, sep: string, last: string)
    requires parts != []
    ensures Join(parts + [last], sep) == Join(parts, sep) + sep + last
  {
    assert (parts + [last])[..|parts|] == parts;
  }

  /** The name of a record one level deeper is its parent's name, a dot and
      the key. */
  lemma NameChild(keys: seq<string>, key: string)
    ensures Name(keys + [key]) == Name(keys) + "." + key
  {
    assert ["colors"] + (keys + [key]) == (["colors"] + keys) + [key];
    JoinSnoc(["colors"] + keys, ".", key);
  }

  /** "colors", then a dot before each key. */
  function Dotted(keys: seq<string>): string {
    if keys == [] then "" else Dotted(keys[..|keys| - 1]) + "." + keys[|keys| - 1]
  }

  lemma {:induction false} NameIsDotted(keys: seq<string>)
    ensures Name(keys) == "colors" + Dotted(keys)
    decreases |keys|
  {
    if keys == [] {
      assert ["colors"] + keys == ["colors"];
    } else {
      var init := keys[..|keys| - 1];
      assert keys == init + [keys[|keys| - 1]];
      NameIsDotted(init);
      NameChild(init, keys[|keys| - 1]);
    }
  }

  /** A field lying below `keys` is named after `keys` and more. */
  lemma NameExtends(keys: seq<string>, deeper: seq<string>)
    requires keys <= deeper
    ensures Name(keys) <= Name(deeper)
  {
    NameIsDotted(keys);
    NameIsDotted(deeper);
    DottedPrefix(keys, deeper);
  }

  lemma {:induction false} DottedPrefix(keys: seq<string>, deeper: seq<string>)
    requires keys <= deeper
    ensures Dotted(keys) <= Dotted(deeper)
    decreases |deeper|
  {
    if |deeper| > |keys| {
      var init := deeper[..|deeper| - 1];
      assert keys <= init;
      DottedPrefix(keys, init);
    } else {
      assert keys == deeper;
    }
  }

  /** Every colour found under `keys` carries a name that starts with
      `Name(keys)`, so every colour of a walk from the root starts with
      "colors". */
  lemma ExtractNamesExtend(n: Node, keys: seq<string>)
    ensures forall t :: t in Extract(n, keys) ==> Name(keys) <= t.name
  {
    ExtractIsTokensOfFields(n, keys);
    FieldsExtendKeys(n, keys);
    forall t | t in Extract(n, keys) ensures Name(keys) <= t.name {
      var f := TokenFromField(Fields(n, keys), t);
      NameExtends(keys, f.keys);
    }
  }

  /** Each token comes from some colour-marker field. */
  lemma {:induction false} TokenFromField(fs: seq<Field>, t: ColorToken) returns (f: Field)
    requires t in TokensOf(fs)
    ensures f in fs && IsColorField(f) && t == TokenOf(f)
    decreases |fs|
  {
    if IsColorField(fs[0]) && t == TokenOf(fs[0]) {
      f := fs[0];
    } else {
      f := TokenFromField(fs[1..], t);
    }
  }

  /** Each colour-marker field contributes its token. */
  lemma {:induction false} FieldTokenIn(fs: seq<Field>, f: Field)
    requires f in fs && IsColorField(f)
    ensures TokenOf(f) in TokensOf(fs)
    decreases |fs|
  {
    if fs[0] != f {
      assert f in fs[1..];
      FieldTokenIn(fs[1..], f);
    }
  }

  /** The walk yields a token exactly for the colour-marker fields of the
      tree: each token is the name and `value` of such a field's record,
      and every such field yields its token. */
  lemma ExtractMatchesColorFields(n: Node, keys: seq<string>)
    ensures forall t :: t in Extract(n, keys) <==>
      exists f :: f in Fields(n, keys) && IsColorField(f) && t == TokenOf(f)
  {
    ExtractIsTokensOfFields(n, keys);
    var fs := Fields(n, keys);
    forall t | t in Extract(n, keys)
      ensures exists f :: f in fs && IsColorField(f) && t == TokenOf(f)
    {
      var f := TokenFromField(fs, t);
    }
    forall f | f in fs && IsColorField(f) ensures TokenOf(f) in Extract(n, keys) {
      FieldTokenIn(fs, f);
    }
  }

  /** A scalar, `null` or an empty object holds no colours. */
  lemma ExtractOfEmpty(p: Primitive, keys: seq<string>)
    ensures Extract(Mapping([]), keys) == [] && Extract(Null, keys) == []
    ensures Extract(Scalar(p), keys) == []
  {
  }

  // ---------------------------------------------------------------------
  // Worked examples.

  function ColorRecord(hex: string): Node {
    Mapping([("type", Scalar(Str("color"))), ("value", Scalar(Str(hex)))])
  }

  lemma ExampleNames()
    ensures Name(["brand", "primary"]) == "colors.brand.primary"
    ensures Name(["bg"]) == "colors.bg"
  {
    ChildName("brand");
    ChildName("bg");
    NameChild(["brand"], "primary");
    assert ["brand"] + ["primary"] == ["brand", "primary"];
  }

  /** A key directly below the root is named `colors.` and the key. */
  lemma ChildName(key: string)
    ensures Name([key]) == "colors." + key
  {
    NameChild([], key);
    assert [] + [key] == [key];
  }

  /** A lone colour record yields one token named by its keys. */
  lemma ExtractColorRecord(hex: string, keys: seq<string>)
    ensures Extract(ColorRecord(hex), keys) == [ColorToken(Name(keys), Some(Scalar(Str(hex))))]
  {
    assert ExtractFrom(ColorRecord(hex), 2, keys) == [];
    assert ExtractFrom(ColorRecord(hex), 1, keys) == [];
  }

  /** `{brand: {primary: {type: "color", value: "#112233"}},
       bg: {type: "color", value: "#ffffff"}}` yields the nested colour first,
      then its sibling, named by their paths. */
  lemma ExtractExample()
    ensures Extract(Mapping([("brand", Mapping([("primary", ColorRecord("#112233"))])),
                             ("bg", ColorRecord("#ffffff"))]), [])
         == [ColorToken("colors.brand.primary", Some(Scalar(Str("#112233")))),
             ColorToken("colors.bg", Some(Scalar(Str("#ffffff"))))]
  {
    var brand := Mapping([("primary", ColorRecord("#112233"))]);
    var tree := Mapping([("brand", brand), ("bg", ColorRecord("#ffffff"))]);
    ExampleNames();
    ExtractColorRecord("#ffffff", ["bg"]);
    ExtractBrand();
    assert ExtractFrom(tree, 2, []) == [];
    assert ExtractFrom(tree, 1, []) == Extract(ColorRecord("#ffffff"), ["bg"]) by {
      assert [] + ["bg"] == ["bg"];
    }
    assert Extract(tree, []) == Extract(brand, ["brand"]) + Extract(ColorRecord("#ffffff"), ["bg"]) by {
      assert [] + ["brand"] == ["brand"];
    }
  }

  lemma ExtractBrand()
    ensures Extract(Mapping([("primary", ColorRecord("#112233"))]), ["brand"])
         == [ColorToken(Name(["brand", "primary"]), Some(Scalar(Str("#112233"))))]
  {
    var brand := Mapping([("primary", ColorRecord("#112233"))]);
    ExtractColorRecord("#112233", ["brand", "primary"]);
    assert ExtractFrom(brand, 1, ["brand"]) == [];
    assert ["brand"] + ["primary"] == ["brand", "primary"];
  }

  /** A record marked as a colour but without a `value` field still yields a
      token; its value is `undefined`. */
  lemma MissingValueExample()
    ensures Extract(Mapping([("accent", Mapping([("type", Scalar(Str("color")))]))]), [])
         == [ColorToken("colors.accent", None)]
  {
    var accent := Mapping([("type", Scalar(Str("color")))]);
    var tree := Mapping([("accent", accent)]);
    ChildName("accent");
    AccentRecord();
    assert ExtractFrom(tree, 1, []) == [];
    assert IsObject(accent);
    assert Extract(tree, []) == Extract(accent, ["accent"]) + ExtractFrom(tree, 1, []) by {
      assert [] + ["accent"] == ["accent"];
    }
    assert "colors." + "accent" == "colors.accent";
  }

  lemma AccentRecord()
    ensures Extract(Mapping([("type", Scalar(Str("color")))]), ["accent"])
         == [ColorToken(Name(["accent"]), None)]
  {
    var accent := Mapping([("type", Scalar(Str("color")))]);
    assert ExtractFrom(accent, 1, ["accent"]) == [];
    assert Lookup([("type", Scalar(Str("color")))], "value") == None;
  }
}
