/**
 * The page-template registry (src/templates/registry/templateRegistry.ts and
 * src/templates/registry/types.ts). The registry keeps its templates in a
 * JavaScript `Map`, whose iteration order is the order in which keys were
 * first set (a `set` on an existing key replaces the value in place); that
 * map is modelled here as a key sequence beside a Dafny `map`.
 */
module TemplateRegistry {
  import opened Wrappers

  /** TemplateMetadata without the two `Date` stamps. */
  datatype TemplateMetadata = TemplateMetadata(
    id: string,
    name: string,
    description: string,
    category: string,
    thumbnail: Option<string>)

  /**
   * A template: its metadata, the name of its React component and the
   * default props that are plain text (the JSX-valued props are not modelled).
   */
  datatype Template = Template(
    metadata: TemplateMetadata,
    component: string,
    defaultProps: map<string, string>)

  /** A JavaScript `Map<string, Template>`: the keys in insertion order and the value of each. */
  datatype JsMap = JsMap(keys: seq<string>, values: map<string, Template>)

  /** Each key occurs once in the order and the order holds exactly the keys of the map. */
  ghost predicate MapValid(m: JsMap) {
    && (forall i, j :: 0 <= i < j < |m.keys| ==> m.keys[i] != m.keys[j])
    && (forall k :: k in m.values <==> k in m.keys)
  }

  /** `new Map()`. */
  function EmptyMap(): (m: JsMap)
    ensures MapValid(m) && |m.keys| == 0
  {
    JsMap([], map[])
  }

  /** `m.set(k, v)`: a new key goes to the end of the order; an existing key keeps its place. */
  function MapSet(m: JsMap, k: string, v: Template): JsMap {
    JsMap(if k in m.keys then m.keys else m.keys + [k], m.values[k := v])
  }

  /** `m.get(k)`, with undefined as None. */
  function MapGet(m: JsMap, k: string): Option<Template> {
    if k in m.values then Some(m.values[k]) else None
  }

  /** `Array.from(m.values())`: the values in key order. */
  function MapValues(m: JsMap): (r: seq<Template>)
    requires MapValid(m)
    ensures |r| == |m.keys|
    ensures forall i :: 0 <= i < |r| ==> r[i] == m.values[m.keys[i]]
  {
    seq(|m.keys|, i requires 0 <= i < |m.keys| => m.values[m.keys[i]])
  }

  lemma MapSetValid(m: JsMap, k: string, v: Template)
    requires MapValid(m)
    ensures MapValid(MapSet(m, k, v))
  {
  }

  /** After `set(k, v)`, `get(k)` is v and every other key reads as before. */
  lemma MapSetGet(m: JsMap, k: string, v: Template, j: string)
    ensures MapGet(MapSet(m, k, v), j) == if j == k then Some(v) else MapGet(m, j)
  {
  }

  /** A key that was never set reads as undefined. */
  lemma MapGetMissing(m: JsMap, k: string)
    requires MapValid(m) && k !in m.keys
    ensures MapGet(m, k).None?
  {
  }

  /**
   * Setting an existing key replaces its value at its own position and
   * keeps the size; setting a new key appends its value.
   */
  lemma MapSetValues(m: JsMap, k: string, v: Template)
    requires MapValid(m)
    ensures MapValid(MapSet(m, k, v))
    ensures k in m.keys ==>
      && |MapValues(MapSet(m, k, v))| == |MapValues(m)|
      && forall i :: 0 <= i < |m.keys| ==>
           MapValues(MapSet(m, k, v))[i] == if m.keys[i] == k then v else MapValues(m)[i]
    ensures k !in m.keys ==> MapValues(MapSet(m, k, v)) == MapValues(m) + [v]
  {
    var m2 := MapSet(m, k, v);
    if k !in m.keys {
      assert forall i :: 0 <= i < |m.keys| ==> m.keys[i] != k;
      assert MapValues(m2) == MapValues(m) + [v] by {
        assert |MapValues(m2)| == |MapValues(m)| + 1;
        forall i | 0 <= i < |m2.keys|
          ensures MapValues(m2)[i] == (MapValues(m) + [v])[i]
        {
          if i < |m.keys| {
            assert m2.keys[i] == m.keys[i];
          }
        }
      }
    }
  }

  /** Setting the same key to the same value twice is the same as setting it once. */
  lemma MapSetTwice(m: JsMap, k: string, v: Template)
    ensures MapSet(MapSet(m, k, v), k, v) == MapSet(m, k, v)
  {
    assert k in MapSet(m, k, v).keys;
  }

  /** The registry's own invariant: its map is well formed and every template is filed under its own id. */
  ghost predicate RegistryValid(m: JsMap) {
    MapValid(m) && forall k :: k in m.values ==> m.values[k].metadata.id == k
  }

  /** Registering a template under its id keeps the registry's invariant. */
  lemma RegisterKeepsValid(m: JsMap, t: Template)
    requires RegistryValid(m)
    ensures RegistryValid(MapSet(m, t.metadata.id, t))
  {
    MapSetValid(m, t.metadata.id, t);
  }

  /** `filter(template => template.metadata.category === category)`. */
  function ByCategory(ts: seq<Template>, category: string): (r: seq<Template>)
    ensures |r| <= |ts|
  {
    if ts == [] then []
    else (if ts[0].metadata.category == category then [ts[0]] else []) + ByCategory(ts[1..], category)
  }

  /** The filter keeps exactly the templates of that category. */
  lemma {:induction false} ByCategoryMembers(ts: seq<Template>, category: string)
    ensures forall t :: t in ByCategory(ts, category) <==> t in ts && t.metadata.category == category
  {
    if ts != [] {
      ByCategoryMembers(ts[1..], category);
      assert ts == [ts[0]] + ts[1..];
    }
  }

  /** The filter keeps order: filtering a concatenation concatenates the filtered parts. */
  lemma {:induction false} ByCategoryAppend(a: seq<Template>, b: seq<Template>, category: string)
    ensures ByCategory(a + b, category) == ByCategory(a, category) + ByCategory(b, category)
  {
    if a == [] {
      assert a + b == b;
    } else {
      var head := if a[0].metadata.category == category then [a[0]] else [];
      ByCategoryAppend(a[1..], b, category);
      assert (a + b)[0] == a[0];
      assert (a + b)[1..] == a[1..] + b;
      calc {
        ByCategory(a + b, category);
        head + ByCategory(a[1..] + b, category);
        head + (ByCategory(a[1..], category) + ByCategory(b, category));
        (head + ByCategory(a[1..], category)) + ByCategory(b, category);
      }
    }
  }

  /** A list whose every template has that category is returned whole. */
  lemma {:induction false} ByCategoryAll(ts: seq<Template>, category: string)
    requires forall i :: 0 <= i < |ts| ==> ts[i].metadata.category == category
    ensures ByCategory(ts, category) == ts
  {
    if ts != [] {
      ByCategoryAll(ts[1..], category);
    }
  }

  class TemplateRegistry {
    /** The private `templates` map. */
    var templates: JsMap

    ghost predicate Valid()
      reads this
    {
      RegistryValid(templates)
    }

    /** A new registry holds no templates. */
    constructor ()
      ensures Valid() && templates == EmptyMap()
    {
      templates := EmptyMap();
    }

    /** `registerTemplate`: files the template under its id, replacing any earlier one with that id. */
    method RegisterTemplate(t: Template)
      requires Valid()
      modifies this
      ensures Valid()
      ensures templates == MapSet(old(templates), t.metadata.id, t)
    {
      RegisterKeepsValid(templates, t);
      templates := MapSet(templates, t.metadata.id, t);
    }

    /** `getTemplate`: the template registered under that id, if any, which carries that id. */
    function GetTemplate(id: string): (r: Option<Template>)
      requires Valid()
      reads this
      ensures r.Some? <==> id in templates.keys
      ensures r.Some? ==> r.value.metadata.id == id
    {
      MapGet(templates, id)
    }

    /** `getAllTemplates`: one template per registered id, in the order the ids were first registered. */
    function GetAllTemplates(): (r: seq<Template>)
      requires Valid()
      reads this
      ensures |r| == |templates.keys|
      ensures forall i :: 0 <= i < |r| ==> r[i].metadata.id == templates.keys[i]
      ensures forall i, j :: 0 <= i < j < |r| ==> r[i].metadata.id != r[j].metadata.id
    {
      MapValues(templates)
    }

    /** `getTemplatesByCategory`: the registered templates of that category, in registration order. */
    function GetTemplatesByCategory(category: string): (r: seq<Template>)
      requires Valid()
      reads this
      ensures forall t :: t in r <==> t in GetAllTemplates() && t.metadata.category == category
    {
      ByCategoryMembers(GetAllTemplates(), category);
      ByCategory(GetAllTemplates(), category)
    }
  }
}
