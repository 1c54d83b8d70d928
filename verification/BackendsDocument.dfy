/**
 What the reader of `inference/backends.toml` makes of a text, said by its lines: which tables there are, which keys
 each has, and which texts are no TOML because something is defined twice.
 */
module BackendsDocument {
  import opened Wrappers
  import opened BackendsToml

  /** The document of a text's lines, from what kind each line is. */
  function LoadKinds(kinds: seq<Kind>): (r: Option<Doc>)
    ensures r.Some? ==> r.value.Valid()
  {
    if kinds == [] then Some(EMPTY_DOC)
    else
      match LoadKinds(kinds[..|kinds| - 1])
      case None => None
      case Some(doc) => AddLine(doc, kinds[|kinds| - 1])
  }

  function Kinds(lines: seq<string>): (kinds: seq<Kind>) {
    seq(|lines|, i requires 0 <= i < |lines| => Classify(lines[i]))
  }

  lemma {:induction false} LinesLoadAsKinds(lines: seq<string>)
    ensures LoadLines(lines) == LoadKinds(Kinds(lines))
  {
    if lines != [] {
      var n := |lines| - 1;
      LinesLoadAsKinds(lines[..n]);
      assert Kinds(lines)[..n] == Kinds(lines[..n]);
    }
  }

  ghost predicate HeaderAt(kinds: seq<Kind>, h: int, name: string) {
    0 <= h < |kinds| && kinds[h] == Header(name)
  }

  ghost predicate AssignAt(kinds: seq<Kind>, i: int, key: string) {
    0 <= i < |kinds| && kinds[i].Assign? && kinds[i].key == key
  }

  ghost predicate NoHeader(kinds: seq<Kind>, from: int, to: int) {
    forall j :: from <= j < to && 0 <= j < |kinds| ==> !kinds[j].Header?
  }

  /** The last header above line `i` is this table's. */
  ghost predicate InTable(kinds: seq<Kind>, i: int, name: string) {
    exists h :: h < i && HeaderAt(kinds, h, name) && NoHeader(kinds, h + 1, i)
  }

  /** No header is above line `i`. */
  ghost predicate OnTop(kinds: seq<Kind>, i: int) {
    NoHeader(kinds, 0, i)
  }

  ghost predicate SetsAt(kinds: seq<Kind>, i: int, key: string, value: Value) {
    0 <= i < |kinds| && kinds[i] == Assign(key, value)
  }

  // Looking at all kinds but the last.

  lemma InTableBefore(kinds: seq<Kind>, i: int, name: string)
    requires kinds != [] && i <= |kinds| - 1
    ensures InTable(kinds[..|kinds| - 1], i, name) <==> InTable(kinds, i, name)
    ensures OnTop(kinds[..|kinds| - 1], i) <==> OnTop(kinds, i)
  {
    var before := kinds[..|kinds| - 1];
    assert forall j :: 0 <= j < |before| ==> before[j] == kinds[j];
    if InTable(before, i, name) {
      var h :| h < i && HeaderAt(before, h, name) && NoHeader(before, h + 1, i);
      assert HeaderAt(kinds, h, name) && NoHeader(kinds, h + 1, i);
    }
    if InTable(kinds, i, name) {
      var h :| h < i && HeaderAt(kinds, h, name) && NoHeader(kinds, h + 1, i);
      assert HeaderAt(before, h, name) && NoHeader(before, h + 1, i);
    }
  }

  /** A header begins its table; every other line stays in the table it is in. */
  lemma InTableAfter(kinds: seq<Kind>, name: string)
    requires kinds != []
    ensures var n := |kinds| - 1;
            InTable(kinds, |kinds|, name) <==>
            if kinds[n].Header? then kinds[n].name == name else InTable(kinds, n, name)
  {
    var n := |kinds| - 1;
    if InTable(kinds, |kinds|, name) {
      var h :| h < |kinds| && HeaderAt(kinds, h, name) && NoHeader(kinds, h + 1, |kinds|);
      if h < n {
        assert NoHeader(kinds, h + 1, n);
      }
    }
    if HeaderAt(kinds, n, name) {
      assert NoHeader(kinds, n + 1, |kinds|);
    } else if !kinds[n].Header? && InTable(kinds, n, name) {
      var h :| h < n && HeaderAt(kinds, h, name) && NoHeader(kinds, h + 1, n);
      assert NoHeader(kinds, h + 1, |kinds|);
    }
  }

  lemma {:induction false} OneTableAt(kinds: seq<Kind>, i: int, a: string, b: string)
    requires InTable(kinds, i, a) && InTable(kinds, i, b)
    ensures a == b && !OnTop(kinds, i)
  {
    var g :| g < i && HeaderAt(kinds, g, a) && NoHeader(kinds, g + 1, i);
    var h :| h < i && HeaderAt(kinds, h, b) && NoHeader(kinds, h + 1, i);
  }

  // What a loaded document is.

  /** The table being read is the last header's. */
  lemma {:induction false} CurrentIsTheLastHeaders(kinds: seq<Kind>)
    requires LoadKinds(kinds).Some?
    ensures forall name :: LoadKinds(kinds).value.current == Some(name) <==> InTable(kinds, |kinds|, name)
  {
    if kinds != [] {
      var before := kinds[..|kinds| - 1];
      CurrentIsTheLastHeaders(before);
      forall name ensures LoadKinds(kinds).value.current == Some(name) <==> InTable(kinds, |kinds|, name) {
        InTableAfter(kinds, name);
        InTableBefore(kinds, |before|, name);
      }
    }
  }

  /** The tables are the headers' names. */
  lemma {:induction false} TablesAreTheHeaders(kinds: seq<Kind>)
    requires LoadKinds(kinds).Some?
    ensures forall name :: name in LoadKinds(kinds).value.tables <==> exists h :: HeaderAt(kinds, h, name)
  {
    if kinds != [] {
      var n := |kinds| - 1;
      TablesAreTheHeaders(kinds[..n]);
      forall name ensures name in LoadKinds(kinds).value.tables <==> exists h :: HeaderAt(kinds, h, name) {
        if h :| HeaderAt(kinds[..n], h, name) {
          assert HeaderAt(kinds, h, name);
        }
        if h :| HeaderAt(kinds, h, name) {
          assert h < n ==> HeaderAt(kinds[..n], h, name);
        }
        assert HeaderAt(kinds, n, name) <==> kinds[n] == Header(name);
      }
    }
  }

  /** This line assigns the key in this table. */
  ghost predicate AssignsIn(kinds: seq<Kind>, i: int, name: string, key: string, value: Value) {
    SetsAt(kinds, i, key, value) && InTable(kinds, i, name)
  }

  lemma AssignsInMore(kinds: seq<Kind>, name: string, key: string, value: Value)
    requires kinds != []
    ensures var n := |kinds| - 1;
            (exists i :: AssignsIn(kinds, i, name, key, value)) <==>
            || (exists i :: AssignsIn(kinds[..n], i, name, key, value))
            || (kinds[n] == Assign(key, value) && InTable(kinds, n, name))
  {
    var n := |kinds| - 1;
    if i :| AssignsIn(kinds[..n], i, name, key, value) {
      InTableBefore(kinds, i, name);
      assert AssignsIn(kinds, i, name, key, value);
    }
    if i :| AssignsIn(kinds, i, name, key, value) {
      if i < n {
        InTableBefore(kinds, i, name);
        assert AssignsIn(kinds[..n], i, name, key, value);
      }
    }
    if kinds[n] == Assign(key, value) && InTable(kinds, n, name) {
      assert AssignsIn(kinds, n, name, key, value);
    }
  }

  ghost predicate HasKey(doc: Doc, name: string, key: string) {
    name in doc.tables && key in doc.tables[name].keys
  }

  /** One line more adds its own assignment to the table it stands in, and changes no other. */
  lemma LineAddsItsKey(kinds: seq<Kind>, name: string, key: string)
    requires kinds != [] && LoadKinds(kinds).Some?
    ensures var n := |kinds| - 1;
            HasKey(LoadKinds(kinds).value, name, key) <==>
            || HasKey(LoadKinds(kinds[..n]).value, name, key)
            || (kinds[n].Assign? && kinds[n].key == key && InTable(kinds, n, name))
  {
    var n := |kinds| - 1;
    CurrentIsTheLastHeaders(kinds[..n]);
    InTableBefore(kinds, n, name);
  }

  /** A table's keys are those its own kinds assign. */
  lemma {:induction false} KeysAreTheAssigned(kinds: seq<Kind>, name: string, key: string)
    requires LoadKinds(kinds).Some?
    ensures HasKey(LoadKinds(kinds).value, name, key) <==> exists i, value :: AssignsIn(kinds, i, name, key, value)
  {
    if kinds != [] {
      var n := |kinds| - 1;
      KeysAreTheAssigned(kinds[..n], name, key);
      LineAddsItsKey(kinds, name, key);
      forall value
        ensures (exists i :: AssignsIn(kinds, i, name, key, value)) <==>
                || (exists i :: AssignsIn(kinds[..n], i, name, key, value))
                || (kinds[n] == Assign(key, value) && InTable(kinds, n, name))
      {
        AssignsInMore(kinds, name, key, value);
      }
      if kinds[n].Assign? && kinds[n].key == key && InTable(kinds, n, name) {
        assert kinds[n] == Assign(key, kinds[n].value);
      }
    }
  }

  ghost predicate HasSwitch(doc: Doc, name: string, value: Value) {
    name in doc.tables && doc.tables[name].enabled == Some(value)
  }

  /** A table's `enabled` is what its own line assigns to it; without such a line there is none. */
  lemma {:induction false} SwitchIsTheAssigned(kinds: seq<Kind>, name: string, value: Value)
    requires LoadKinds(kinds).Some?
    ensures HasSwitch(LoadKinds(kinds).value, name, value) <==> exists i :: AssignsIn(kinds, i, name, "enabled", value)
  {
    if kinds != [] {
      var n := |kinds| - 1;
      SwitchIsTheAssigned(kinds[..n], name, value);
      AssignsInMore(kinds, name, "enabled", value);
      CurrentIsTheLastHeaders(kinds[..n]);
      InTableBefore(kinds, n, name);
      SwitchesHaveKeys(kinds[..n]);
    }
  }

  /** A table has a value for `enabled` exactly when it has the key. */
  lemma {:induction false} SwitchesHaveKeys(kinds: seq<Kind>)
    requires LoadKinds(kinds).Some?
    ensures forall name :: name in LoadKinds(kinds).value.tables ==>
              var table := LoadKinds(kinds).value.tables[name]; table.enabled.Some? <==> "enabled" in table.keys
  {
    if kinds != [] {
      SwitchesHaveKeys(kinds[..|kinds| - 1]);
    }
  }

  // Which texts load.

  /** Keys above every header. */
  lemma {:induction false} TopKeysAreAssigned(kinds: seq<Kind>, key: string)
    requires LoadKinds(kinds).Some?
    ensures key in LoadKinds(kinds).value.top <==> exists i :: AssignAt(kinds, i, key) && OnTop(kinds, i)
  {
    if kinds != [] {
      var n := |kinds| - 1;
      TopKeysAreAssigned(kinds[..n], key);
      TopOrTable(kinds[..n]);
      InTableBefore(kinds, n, "");
      if i :| AssignAt(kinds[..n], i, key) && OnTop(kinds[..n], i) {
        InTableBefore(kinds, i, "");
        assert AssignAt(kinds, i, key) && OnTop(kinds, i);
      }
      if i :| AssignAt(kinds, i, key) && OnTop(kinds, i) {
        InTableBefore(kinds, i, "");
        assert i < n ==> AssignAt(kinds[..n], i, key);
      }
      if AssignAt(kinds, n, key) && OnTop(kinds, n) {
        assert LoadKinds(kinds[..n]).value.current.None?;
      }
    }
  }

  lemma {:induction false} TopOrTable(kinds: seq<Kind>)
    requires LoadKinds(kinds).Some?
    ensures LoadKinds(kinds).value.current.None? <==> OnTop(kinds, |kinds|)
  {
    if kinds != [] {
      var n := |kinds| - 1;
      TopOrTable(kinds[..n]);
      InTableBefore(kinds, n, "");
      assert OnTop(kinds, |kinds|) <==> OnTop(kinds, n) && !kinds[n].Header?;
    }
  }

  /** Line `n` defines what a line before it has defined: a table or a key twice, or a table over a top key. */
  ghost predicate Redefines(kinds: seq<Kind>, n: int) {
    0 <= n < |kinds| &&
    match kinds[n]
    case Header(name) =>
      || (exists h :: h < n && HeaderAt(kinds, h, name))
      || (exists i :: i < n && AssignAt(kinds, i, name) && OnTop(kinds, i))
    case Assign(key, _) =>
      || (OnTop(kinds, n) && exists i :: i < n && AssignAt(kinds, i, key) && OnTop(kinds, i))
      || (exists name, i :: i < n && InTable(kinds, n, name) && InTable(kinds, i, name) && AssignAt(kinds, i, key))
    case _ => false
  }

  lemma LastRedefines(kinds: seq<Kind>)
    requires kinds != [] && LoadKinds(kinds[..|kinds| - 1]).Some?
    ensures var n := |kinds| - 1;
            LoadKinds(kinds).None? <==> kinds[n].Outside? || Redefines(kinds, n)
  {
    var n := |kinds| - 1;
    var before := kinds[..n];
    assert forall j :: 0 <= j < n ==> before[j] == kinds[j];
    match kinds[n]
    case Header(name) =>
      TablesAreTheHeaders(before);
      TopKeysAreAssigned(before, name);
      forall h | h < n ensures HeaderAt(before, h, name) <==> HeaderAt(kinds, h, name) {
      }
      forall i | i < n
        ensures AssignAt(before, i, name) && OnTop(before, i) <==> AssignAt(kinds, i, name) && OnTop(kinds, i)
      {
        InTableBefore(kinds, i, "");
      }
    case Assign(key, value) =>
      LastKeyRedefines(kinds, key);
    case _ =>
  }

  lemma LastKeyRedefines(kinds: seq<Kind>, key: string)
    requires kinds != [] && LoadKinds(kinds[..|kinds| - 1]).Some? && AssignAt(kinds, |kinds| - 1, key)
    ensures LoadKinds(kinds).None? <==> Redefines(kinds, |kinds| - 1)
  {
    var n := |kinds| - 1;
    var before := kinds[..n];
    var doc := LoadKinds(before).value;
    assert forall j :: 0 <= j < n ==> before[j] == kinds[j];
    TopOrTable(before);
    CurrentIsTheLastHeaders(before);
    forall i | i < n
      ensures AssignAt(before, i, key) && OnTop(before, i) <==> AssignAt(kinds, i, key) && OnTop(kinds, i)
    {
      InTableBefore(kinds, i, "");
    }
    InTableBefore(kinds, n, "");
    if doc.current.None? {
      TopKeysAreAssigned(before, key);
      forall name ensures !InTable(kinds, n, name) {
        InTableBefore(kinds, n, name);
      }
    } else {
      var name := doc.current.value;
      InTableBefore(kinds, n, name);
      KeysAreTheAssigned(before, name, key);
      OwnTableRedefines(kinds, before, name, key);
    }
  }

  lemma OwnTableRedefines(kinds: seq<Kind>, before: seq<Kind>, name: string, key: string)
    requires kinds != [] && before == kinds[..|kinds| - 1] && InTable(kinds, |kinds| - 1, name)
    ensures (exists i, value :: AssignsIn(before, i, name, key, value)) <==>
            (exists other, i :: i < |kinds| - 1 && InTable(kinds, |kinds| - 1, other) && InTable(kinds, i, other)
                                && AssignAt(kinds, i, key))
  {
    var n := |kinds| - 1;
    if i, value :| AssignsIn(before, i, name, key, value) {
      InTableBefore(kinds, i, name);
      assert AssignAt(kinds, i, key) && InTable(kinds, i, name);
    }
    if other, i :| i < n && InTable(kinds, n, other) && InTable(kinds, i, other) && AssignAt(kinds, i, key) {
      OneTableAt(kinds, n, name, other);
      InTableBefore(kinds, i, name);
      assert AssignsIn(before, i, name, key, kinds[i].value);
    }
  }

  /** Lines load exactly when each is of the grammar and none defines what one before it has. */
  lemma {:induction false} LoadsIff(kinds: seq<Kind>)
    ensures LoadKinds(kinds).Some? <==>
            forall n :: 0 <= n < |kinds| ==> !kinds[n].Outside? && !Redefines(kinds, n)
  {
    if kinds != [] {
      var last := |kinds| - 1;
      LoadsIff(kinds[..last]);
      forall n | 0 <= n < last
        ensures Redefines(kinds[..last], n) <==> Redefines(kinds, n)
        ensures kinds[..last][n] == kinds[n]
      {
        RedefinesBefore(kinds, n);
      }
      if LoadKinds(kinds[..last]).Some? {
        LastRedefines(kinds);
      }
    }
  }

  lemma RedefinesBefore(kinds: seq<Kind>, n: int)
    requires 0 <= n < |kinds| - 1
    ensures Redefines(kinds[..|kinds| - 1], n) <==> Redefines(kinds, n)
  {
    var before := kinds[..|kinds| - 1];
    assert forall j :: 0 <= j < |before| ==> before[j] == kinds[j];
    forall i, name | i <= n
      ensures InTable(before, i, name) <==> InTable(kinds, i, name)
      ensures OnTop(before, i) <==> OnTop(kinds, i)
    {
      InTableBefore(kinds, i, name);
    }
    forall i, key | i < n ensures AssignAt(before, i, key) <==> AssignAt(kinds, i, key) {
    }
    forall h, name | h < n ensures HeaderAt(before, h, name) <==> HeaderAt(kinds, h, name) {
    }
  }
}
