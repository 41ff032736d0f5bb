/**
 * The colour-token extractor as the plugin runs it: a recursive walk that
 * shares one `keys` path stack and one `colors` accumulator between all of
 * its calls, pushing a key before it descends into a child object and
 * popping it on the way back.
 */
module Traverse {
  import opened TokenTree

  /** The two arrays `traverseObject` passes down to every recursive call. */
  class Walk {
    /** The keys of the objects the walk is currently inside. */
    var keys: seq<string>
    /** The colours found so far, in the order they were found. */
    var colors: seq<ColorToken>

    /** A walk whose path stack and accumulator start as given (the
        default arguments are both empty). */
    constructor (keys0: seq<string>, colors0: seq<ColorToken>)
      ensures keys == keys0 && colors == colors0
    {
      keys := keys0;
      colors := colors0;
    }

    /** `traverseObject(obj, keys, colors)`: visits the keys of `obj` in
        enumeration order; descends into every child object with its key
        pushed; appends a colour for every `type: "color"` field. The path
        stack is the same afterwards, the colours found before are kept, and
        the new ones follow them; the accumulator itself is returned. */
    method TraverseObject(obj: Node) returns (result: seq<ColorToken>)
      modifies this
      ensures keys == old(keys)
      ensures colors == old(colors) + Extract(obj, old(keys))
      ensures result == colors
      decreases obj
    {
      var entries := Entries(obj);
      for i := 0 to |entries|
        invariant keys == old(keys)
        invariant colors + ExtractFrom(obj, i, keys) == old(colors) + Extract(obj, keys)
      {
        var key, value := entries[i].0, entries[i].1;
        assert entries[i] in obj.entries;
        ghost var rest := ExtractFrom(obj, i + 1, keys);
        if IsObject(value) {
          assert ExtractFrom(obj, i, keys) == Extract(value, keys + [key]) + rest;
          ghost var before := colors;
          keys := keys + [key];
          var _ := TraverseObject(value);
          keys := keys[..|keys| - 1];
          assert keys == old(keys);
          assert colors + rest == before + (Extract(value, old(keys) + [key]) + rest);
        } else if key == "type" && value == Scalar(Str("color")) {
          var found := ColorToken(Name(keys), Lookup(entries, "value"));
          assert ExtractFrom(obj, i, keys) == [found] + rest;
          assert (colors + [found]) + rest == colors + ([found] + rest);
          colors := colors + [found];
        } else {
          assert ExtractFrom(obj, i, keys) == rest;
        }
      }
      result := colors;
    }
  }

  /** The plugin's call `traverseObject(tree)` with both defaults: the
      colours of the whole tree, named from "colors" down. */
  method ExtractColors(tree: Node) returns (colors: seq<ColorToken>)
    ensures colors == Extract(tree, [])
    ensures forall t :: t in colors ==> "colors" <= t.name
  {
    var walk := new Walk([], []);
    colors := walk.TraverseObject(tree);
    ExtractNamesExtend(tree, []);
  }
}
