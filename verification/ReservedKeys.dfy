/**
 The run-body walk of `api/routes/pipelex/pipeline.py`: no object at any depth of a parsed body may carry a
 key that a kajson decoder reads as a class marker. The walk keeps its own stack.
 */
module ReservedKeys {
  import opened Wrappers
  import opened TextLines

  /** A parsed JSON value; an object's items are in the order the parser keeps them. */
  datatype Json =
    | Null
    | Bool(b: bool)
    | Number(n: int)
    | Text(s: string)
    | Array(elements: seq<Json>)
    | Object(items: seq<Field>)

  datatype Field = Field(key: string, value: Json)

  predicate IsReserved(key: string) {
    key == "__class__" || key == "__module__" || StartsWith(key, "__kajson")
  }

  /** The values of an object's items, in order. */
  function Values(items: seq<Field>): seq<Json> {
    if items == [] then [] else Values(items[..|items| - 1]) + [items[|items| - 1].value]
  }

  /** The values directly inside a value. */
  function Children(json: Json): seq<Json> {
    match json
    case Array(elements) => elements
    case Object(items) => Values(items)
    case _ => []
  }

  /** The first reserved key among an object's own, in order. */
  function OwnReservedKey(items: seq<Field>): Option<string> {
    if items == [] then None else if IsReserved(items[0].key) then Some(items[0].key) else OwnReservedKey(items[1..])
  }

  function OwnKey(json: Json): Option<string> {
    if json.Object? then OwnReservedKey(json.items) else None
  }

  function Size(json: Json): (n: nat)
    ensures n > 0
  {
    1 + match json
        case Array(elements) => SizeOfAll(elements)
        case Object(items) => SizeOfFields(items)
        case _ => 0
  }

  function SizeOfAll(elements: seq<Json>): nat {
    if elements == [] then 0 else SizeOfAll(elements[..|elements| - 1]) + Size(elements[|elements| - 1])
  }

  function SizeOfFields(items: seq<Field>): nat {
    if items == [] then 0 else SizeOfFields(items[..|items| - 1]) + Size(items[|items| - 1].value)
  }

  lemma {:induction false} SizeOfValues(items: seq<Field>)
    ensures SizeOfAll(Values(items)) == SizeOfFields(items)
  {
    if items != [] {
      SizeOfValues(items[..|items| - 1]);
    }
  }

  lemma SizeOfChildren(json: Json)
    ensures Size(json) == 1 + SizeOfAll(Children(json))
  {
    if json.Object? {
      SizeOfValues(json.items);
    }
  }

  lemma {:induction false} SizeOfAppend(a: seq<Json>, b: seq<Json>)
    ensures SizeOfAll(a + b) == SizeOfAll(a) + SizeOfAll(b)
  {
    if b == [] {
      assert a + b == a;
    } else {
      SizeOfAppend(a, b[..|b| - 1]);
      assert (a + b)[..|a + b| - 1] == a + b[..|b| - 1];
    }
  }

  /** The recursive search the walk refines: an object's own keys first, then what is inside, the last value first. */
  function FirstReserved(json: Json): Option<string>
    decreases Size(json), 0
  {
    if OwnKey(json).Some? then OwnKey(json)
    else
      SizeOfChildren(json);
      FirstOfAll(Children(json))
  }

  function FirstOfAll(elements: seq<Json>): Option<string>
    decreases SizeOfAll(elements), 1
  {
    if elements == [] then None
    else
      var last := FirstReserved(elements[|elements| - 1]);
      if last.Some? then last else FirstOfAll(elements[..|elements| - 1])
  }

  lemma {:induction false} FirstOfAppend(a: seq<Json>, b: seq<Json>)
    ensures FirstOfAll(a + b) == if FirstOfAll(b).Some? then FirstOfAll(b) else FirstOfAll(a)
  {
    if b == [] {
      assert a + b == a;
    } else {
      FirstOfAppend(a, b[..|b| - 1]);
      assert (a + b)[..|a + b| - 1] == a + b[..|b| - 1];
    }
  }

  /** Push an object's values, stopping at its first reserved key. */
  method PushValues(items: seq<Field>, stack: seq<Json>) returns (found: Option<string>, pushed: seq<Json>)
    ensures found == OwnReservedKey(items)
    ensures found.None? ==> pushed == stack + Values(items)
  {
    pushed := stack;
    assert items[0..] == items;
    for i := 0 to |items|
      invariant OwnReservedKey(items) == OwnReservedKey(items[i..])
      invariant pushed == stack + Values(items[..i])
    {
      assert items[i..][1..] == items[i + 1..] && items[..i + 1][..i] == items[..i];
      if IsReserved(items[i].key) {
        return Some(items[i].key), pushed;
      }
      pushed := pushed + [items[i].value];
    }
    assert items[..|items|] == items;
    found := None;
  }

  /** The walk with its explicit stack ends on every finite value and finds what the recursive search finds. */
  method FindReservedObjectKey(payload: Json) returns (found: Option<string>)
    ensures found == FirstReserved(payload)
  {
    var stack := [payload];
    assert FirstOfAll([]) == None && stack[..0] == [];
    while stack != []
      invariant FirstOfAll(stack) == FirstReserved(payload)
      decreases SizeOfAll(stack)
    {
      var current := stack[|stack| - 1];
      var rest := stack[..|stack| - 1];
      SizeOfChildren(current);
      SizeOfAppend(rest, Children(current));
      FirstOfAppend(rest, Children(current));
      if current.Object? {
        found, stack := PushValues(current.items, rest);
        if found.Some? {
          return;
        }
      } else if current.Array? {
        stack := rest + current.elements;
      } else {
        assert rest + [] == rest;
        stack := rest;
      }
    }
    found := None;
  }

  /** The class markers, and every key that kajson keeps for itself. */
  lemma ReservedIff(key: string)
    ensures IsReserved(key) <==> key == "__class__" || key == "__module__" || exists rest :: key == "__kajson" + rest
  {
    if StartsWith(key, "__kajson") {
      assert key == "__kajson" + key[|"__kajson"|..];
    }
  }

  // What is found, said by paths into the value.

  lemma {:induction false} ValuesAreTheItems(items: seq<Field>)
    ensures |Values(items)| == |items| && forall i :: 0 <= i < |items| ==> Values(items)[i] == items[i].value
  {
    if items != [] {
      ValuesAreTheItems(items[..|items| - 1]);
    }
  }

  /** Inside an array are its elements, inside an object its items' values, and nothing is inside any other value. */
  lemma ChildrenAreTheParts(json: Json)
    ensures json.Array? ==> Children(json) == json.elements
    ensures json.Object? ==>
              && |Children(json)| == |json.items|
              && forall i :: 0 <= i < |json.items| ==> Children(json)[i] == json.items[i].value
    ensures !json.Array? && !json.Object? ==> Children(json) == []
  {
    if json.Object? {
      ValuesAreTheItems(json.items);
    }
  }

  /** The value at a path of positions. */
  function At(json: Json, path: seq<nat>): Option<Json>
    decreases |path|
  {
    if path == [] then Some(json)
    else if path[0] < |Children(json)| then At(Children(json)[path[0]], path[1..])
    else None
  }

  /** An object at this path has this key. */
  ghost predicate KeyAt(json: Json, path: seq<nat>, key: string) {
    && At(json, path).Some? && At(json, path).value.Object?
    && exists i :: 0 <= i < |At(json, path).value.items| && At(json, path).value.items[i].key == key
  }

  lemma {:induction false} OwnKeyIsOwn(items: seq<Field>)
    ensures OwnReservedKey(items).Some? ==>
              IsReserved(OwnReservedKey(items).value) && exists i ::
                0 <= i < |items| && items[i].key == OwnReservedKey(items).value
    ensures OwnReservedKey(items).None? ==> forall i :: 0 <= i < |items| ==> !IsReserved(items[i].key)
  {
    if items != [] && !IsReserved(items[0].key) {
      OwnKeyIsOwn(items[1..]);
      if OwnReservedKey(items[1..]).Some? {
        var i :| 0 <= i < |items[1..]| && items[1..][i].key == OwnReservedKey(items).value;
        assert items[i + 1].key == OwnReservedKey(items).value;
      }
    }
  }

  lemma {:induction false} FirstOfAllIsAt(elements: seq<Json>) returns (i: nat)
    requires FirstOfAll(elements).Some?
    ensures i < |elements| && FirstReserved(elements[i]) == FirstOfAll(elements)
  {
    if FirstReserved(elements[|elements| - 1]).Some? {
      i := |elements| - 1;
    } else {
      i := FirstOfAllIsAt(elements[..|elements| - 1]);
    }
  }

  lemma {:induction false} NoneOfAll(elements: seq<Json>, i: nat)
    requires FirstOfAll(elements).None? && i < |elements|
    ensures FirstReserved(elements[i]).None?
  {
    if i < |elements| - 1 {
      NoneOfAll(elements[..|elements| - 1], i);
    }
  }

  lemma {:induction false} SizeOfPart(elements: seq<Json>, i: nat)
    requires i < |elements|
    ensures Size(elements[i]) <= SizeOfAll(elements)
  {
    if i < |elements| - 1 {
      SizeOfPart(elements[..|elements| - 1], i);
    }
  }

  /** A key the search returns is reserved, and an object somewhere in the value has it. */
  lemma {:induction false} FoundKeyOccurs(json: Json) returns (path: seq<nat>)
    requires FirstReserved(json).Some?
    ensures IsReserved(FirstReserved(json).value) && KeyAt(json, path, FirstReserved(json).value)
    decreases Size(json)
  {
    if OwnKey(json).Some? {
      OwnKeyIsOwn(json.items);
      path := [];
    } else {
      SizeOfChildren(json);
      var i := FirstOfAllIsAt(Children(json));
      SizeOfPart(Children(json), i);
      var below := FoundKeyOccurs(Children(json)[i]);
      path := [i] + below;
      assert path[1..] == below;
      assert At(json, path) == At(Children(json)[i], below);
    }
  }

  /** Every value inside a body free of reserved keys is free of them too. */
  lemma {:induction false} PartsOfCleanAreClean(json: Json, path: seq<nat>)
    requires FirstReserved(json).None? && At(json, path).Some?
    ensures FirstReserved(At(json, path).value).None?
    decreases |path|
  {
    if path != [] {
      NoneOfAll(Children(json), path[0]);
      PartsOfCleanAreClean(Children(json)[path[0]], path[1..]);
    }
  }

  /** The walk finds a key exactly when some object at some depth has a reserved one. */
  lemma SearchIsComplete(json: Json)
    ensures FirstReserved(json).Some? <==> exists path, key :: KeyAt(json, path, key) && IsReserved(key)
  {
    if FirstReserved(json).Some? {
      var path := FoundKeyOccurs(json);
    } else {
      forall path, key | KeyAt(json, path, key) ensures !IsReserved(key) {
        PartsOfCleanAreClean(json, path);
        OwnKeyIsOwn(At(json, path).value.items);
      }
    }
  }

  // Values that are not keys never matter.

  function Rewrite(json: Json, scalar: Json -> Json): Json {
    match json
    case Array(elements) => Array(RewriteAll(elements, scalar))
    case Object(items) => Object(RewriteFields(items, scalar))
    case _ => if scalar(json).Array? || scalar(json).Object? then json else scalar(json)
  }

  function RewriteAll(elements: seq<Json>, scalar: Json -> Json): seq<Json> {
    if elements == [] then []
      else RewriteAll(elements[..|elements| - 1], scalar) + [Rewrite(elements[|elements| - 1], scalar)]
  }

  function RewriteFields(items: seq<Field>, scalar: Json -> Json): seq<Field> {
    if items == [] then []
    else
      var last := items[|items| - 1];
      RewriteFields(items[..|items| - 1], scalar) + [Field(last.key, Rewrite(last.value, scalar))]
  }

  /** A rewritten value has the same shape and keys, and each of its scalars is the given one. */
  lemma {:induction false} RewriteAllIs(elements: seq<Json>, scalar: Json -> Json)
    ensures |RewriteAll(elements, scalar)| == |elements|
    ensures forall i :: 0 <= i < |elements| ==> RewriteAll(elements, scalar)[i] == Rewrite(elements[i], scalar)
  {
    if elements != [] {
      RewriteAllIs(elements[..|elements| - 1], scalar);
    }
  }

  lemma RewriteOfScalar(json: Json, scalar: Json -> Json)
    requires !json.Array? && !json.Object? && !scalar(json).Array? && !scalar(json).Object?
    ensures Rewrite(json, scalar) == scalar(json)
  {
  }

  lemma {:induction false} RewriteFieldsIs(items: seq<Field>, scalar: Json -> Json)
    ensures |RewriteFields(items, scalar)| == |items|
    ensures forall i :: 0 <= i < |items| ==>
              RewriteFields(items, scalar)[i] == Field(items[i].key, Rewrite(items[i].value, scalar))
  {
    if items != [] {
      RewriteFieldsIs(items[..|items| - 1], scalar);
    }
  }

  lemma {:induction false} RewriteKeepsKeys(items: seq<Field>, scalar: Json -> Json)
    ensures Values(RewriteFields(items, scalar)) == RewriteAll(Values(items), scalar)
    ensures OwnReservedKey(RewriteFields(items, scalar)) == OwnReservedKey(items)
  {
    if items != [] {
      var n := |items| - 1;
      RewriteKeepsKeys(items[..n], scalar);
      var last := Field(items[n].key, Rewrite(items[n].value, scalar));
      OwnKeyOfAppend(RewriteFields(items[..n], scalar), last);
      OwnKeyOfAppend(items[..n], items[n]);
      assert items[..n] + [items[n]] == items;
      ValuesOfAppend(RewriteFields(items[..n], scalar), last, scalar);
      ValuesOfAppend(items[..n], items[n], scalar);
    }
  }

  lemma ValuesOfAppend(items: seq<Field>, last: Field, scalar: Json -> Json)
    ensures Values(items + [last]) == Values(items) + [last.value]
    ensures RewriteAll(Values(items + [last]), scalar)
            == RewriteAll(Values(items), scalar) + [Rewrite(last.value, scalar)]
  {
    assert (items + [last])[..|items|] == items;
    assert (Values(items) + [last.value])[..|Values(items)|] == Values(items);
  }

  lemma {:induction false} OwnKeyOfAppend(items: seq<Field>, last: Field)
    ensures OwnReservedKey(items + [last]) ==
            if OwnReservedKey(items).Some? then OwnReservedKey(items) else if IsReserved(last.key) then Some(last.key)
              else None
  {
    if items == [] {
      assert items + [last] == [last] && [last][1..] == [];
    } else {
      assert (items + [last])[1..] == items[1..] + [last];
      OwnKeyOfAppend(items[1..], last);
    }
  }

  /** Whatever the strings, numbers and constants of a body say, the walk finds the same key. */
  lemma {:induction false} ScalarsNeverMatter(json: Json, scalar: Json -> Json)
    ensures FirstReserved(Rewrite(json, scalar)) == FirstReserved(json)
    decreases Size(json), 0
  {
    SizeOfChildren(json);
    if json.Object? {
      RewriteKeepsKeys(json.items, scalar);
    }
    ScalarsNeverMatterToAll(Children(json), scalar);
  }

  lemma {:induction false} ScalarsNeverMatterToAll(elements: seq<Json>, scalar: Json -> Json)
    ensures FirstOfAll(RewriteAll(elements, scalar)) == FirstOfAll(elements)
    decreases SizeOfAll(elements), 1
  {
    if elements != [] {
      var n := |elements| - 1;
      ScalarsNeverMatter(elements[n], scalar);
      ScalarsNeverMatterToAll(elements[..n], scalar);
      assert RewriteAll(elements, scalar)[..|RewriteAll(elements, scalar)| - 1] == RewriteAll(elements[..n], scalar);
    }
  }
}
