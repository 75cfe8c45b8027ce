/**
 * The nested translation object and its dotted-path helpers `get`, `set` and
 * `isJSONObject` (source/utils.ts).
 *
 * A translation tree maps keys to message templates or to further trees.
 * `get` reads along a dotted path and answers `None` (JavaScript's
 * `undefined`) as soon as the walk leaves the mappings. `set` writes along a
 * dotted path, creating empty mappings for missing intermediate segments,
 * and refuses the reserved segments `__proto__`, `constructor` and
 * `prototype`.
 */
module TranslationTree {
  import opened Wrappers
  import opened JsString

  /** A translation tree: a message template, or a mapping from keys to subtrees. */
  datatype Tree = Leaf(text: string) | Node(children: map<string, Tree>)

  /** `path.split('.')`: the segments of a dotted path, empty segments kept. */
  function Segments(path: string): (keys: seq<string>)
    ensures |keys| >= 1
    ensures Join(keys, ".") == path
    ensures forall i :: 0 <= i < |keys| ==> !Contains(keys[i], ".")
  {
    SplitOn(path, ".")
  }

  /** The segment names `set` refuses to write through or into. */
  predicate IsReserved(key: string) {
    key == "__proto__" || key == "constructor" || key == "prototype"
  }

  predicate NoneReserved(keys: seq<string>) {
    forall i :: 0 <= i < |keys| ==> !IsReserved(keys[i])
  }

  // ---------------------------------------------------------------- get

  /**
   * The loop of `get` over the segments `keys`: descend through mappings, and
   * answer `None` once the node in hand is not a mapping or the entry is
   * missing; the last segment is read from the node reached.
   */
  function Lookup(t: Tree, keys: seq<string>): Option<Tree>
    requires |keys| >= 1
    decreases |keys|
  {
    match t
    case Leaf(_) => None
    case Node(m) =>
      if keys[0] !in m then None
      else if |keys| == 1 then Some(m[keys[0]])
      else Lookup(m[keys[0]], keys[1..])
  }

  /** What `get(object, path)` answers: the value at the dotted path, if any. */
  function ValueAt(t: Tree, path: string): Option<Tree> {
    Lookup(t, Segments(path))
  }

  /** The node reached after consuming every segment of `keys`, if the walk gets that far. */
  function Walk(t: Tree, keys: seq<string>): Option<Tree>
    decreases |keys|
  {
    if keys == [] then Some(t)
    else match t
      case Leaf(_) => None
      case Node(m) => if keys[0] in m then Walk(m[keys[0]], keys[1..]) else None
  }

  /** Reading the final segment of the node reached by walking the others. */
  function ReadLast(reached: Option<Tree>, key: string): Option<Tree> {
    match reached
    case Some(Node(m)) => if key in m then Some(m[key]) else None
    case _ => None
  }

  /**
   * `get` walks every segment but the last, then reads the last one from the
   * mapping it reached; anything else is `undefined`.
   */
  lemma {:induction false} LookupIsWalkThenRead(t: Tree, keys: seq<string>)
    requires |keys| >= 1
    ensures Lookup(t, keys) == ReadLast(Walk(t, keys[..|keys| - 1]), keys[|keys| - 1])
    decreases |keys|
  {
    if |keys| > 1 && t.Node? && keys[0] in t.children {
      LookupIsWalkThenRead(t.children[keys[0]], keys[1..]);
      assert keys[..|keys| - 1][1..] == keys[1..][..|keys| - 2];
    }
  }

  /** Walking one more segment reads it from the mapping reached, if any. */
  lemma {:induction false} WalkAppend(t: Tree, keys: seq<string>, key: string)
    ensures Walk(t, keys + [key]) == ReadLast(Walk(t, keys), key)
    decreases |keys|
  {
    if keys == [] {
      assert [] + [key] == [key];
      assert [key][1..] == [];
    } else if t.Node? && keys[0] in t.children {
      assert (keys + [key])[1..] == keys[1..] + [key];
      WalkAppend(t.children[keys[0]], keys[1..], key);
    }
  }

  /** A one-segment path reads the top-level entry of that name. */
  lemma GetSingleSegment(m: map<string, Tree>, path: string)
    requires !Contains(path, ".")
    ensures ValueAt(Node(m), path) == if path in m then Some(m[path]) else None
  {
    SplitOnAbsent(path, ".");
  }

  /**
   * Once the walk reaches something that is not a mapping (a missing entry or
   * a template) before the final segment, `get` answers `undefined`.
   */
  lemma {:induction false} LookupStopsOffMappings(t: Tree, keys: seq<string>, j: nat)
    requires j < |keys|
    requires !(Walk(t, keys[..j]).Some? && Walk(t, keys[..j]).value.Node?)
    ensures Lookup(t, keys) == None
    decreases j
  {
    if j > 0 && t.Node? && keys[0] in t.children {
      assert keys[..j][1..] == keys[1..][..j - 1];
      LookupStopsOffMappings(t.children[keys[0]], keys[1..], j - 1);
    }
  }

  // ---------------------------------------------------------------- isJSONObject

  /** The JavaScript values `isJSONObject` may be handed (numbers as integers). */
  datatype JsValue =
    | Undefined
    | Null
    | Bool(b: bool)
    | Number(n: int)
    | Text(s: string)
    | List(items: seq<JsValue>)
    | Record(entries: map<string, JsValue>)

  /** `!!value`. */
  predicate Truthy(v: JsValue) {
    match v
    case Undefined => false
    case Null => false
    case Bool(b) => b
    case Number(n) => n != 0
    case Text(s) => s != ""
    case List(_) => true
    case Record(_) => true
  }

  /** `typeof value`. */
  function TypeOf(v: JsValue): string {
    match v
    case Undefined => "undefined"
    case Null => "object"
    case Bool(_) => "boolean"
    case Number(_) => "number"
    case Text(_) => "string"
    case List(_) => "object"
    case Record(_) => "object"
  }

  /** `isJSONObject(value)`: exactly the arrays and the plain objects, never `null`. */
  function IsJSONObject(v: JsValue): (r: bool)
    ensures r <==> v.List? || v.Record?
  {
    Truthy(v) && TypeOf(v) == "object"
  }

  // ---------------------------------------------------------------- set

  /**
   * How a call of `set` ends: the value was assigned, a reserved segment made
   * it return early, or it assigned a property on a template string, which
   * throws a TypeError in strict-mode JavaScript.
   */
  datatype Outcome = Assigned | Blocked | Faulted

  datatype SetResult = SetResult(tree: Tree, outcome: Outcome)

  /**
   * The effect of `set` on the tree `t` along the segments `keys`. At each
   * intermediate step the reserved check comes first, then the node in hand
   * must be a mapping; a missing entry becomes an empty mapping, and mappings
   * created before an early return stay in place.
   */
  function SetAt(t: Tree, keys: seq<string>, value: Tree): SetResult
    requires |keys| >= 1
    decreases |keys|
  {
    if IsReserved(keys[0]) then SetResult(t, Blocked)
    else match t
      case Leaf(_) => SetResult(t, Faulted)
      case Node(m) =>
        if |keys| == 1 then SetResult(Node(m[keys[0] := value]), Assigned)
        else
          var child := if keys[0] in m then m[keys[0]] else Node(map[]);
          var r := SetAt(child, keys[1..], value);
          SetResult(Node(m[keys[0] := r.tree]), r.outcome)
  }

  /**
   * Every node `set` stands on while consuming `keys` is a mapping (or lies
   * below a missing entry, where `set` creates one).
   */
  predicate Descends(t: Tree, keys: seq<string>)
    decreases |keys|
  {
    keys == [] || (t.Node? && (keys[0] !in t.children || Descends(t.children[keys[0]], keys[1..])))
  }

  /** The tree after creating an empty mapping for every missing segment of `keys`. */
  function EnsurePath(t: Tree, keys: seq<string>): (r: Tree)
    ensures t.Leaf? ==> r == t
    ensures t.Node? ==> r.Node? && t.children.Keys <= r.children.Keys
    decreases |keys|
  {
    if keys == [] then t
    else match t
      case Leaf(_) => t
      case Node(m) =>
        var child := if keys[0] in m then m[keys[0]] else Node(map[]);
        Node(m[keys[0] := EnsurePath(child, keys[1..])])
  }

  /** `set` assigns exactly when no segment is reserved and every node it stands on is a mapping. */
  lemma {:induction false} SetAssignsExactly(t: Tree, keys: seq<string>, value: Tree)
    requires |keys| >= 1
    ensures SetAt(t, keys, value).outcome == Assigned <==> NoneReserved(keys) && Descends(t, keys)
    decreases |keys|
  {
    if !IsReserved(keys[0]) && t.Node? && |keys| > 1 {
      var m := t.children;
      var child := if keys[0] in m then m[keys[0]] else Node(map[]);
      SetAssignsExactly(child, keys[1..], value);
      assert NoneReserved(keys) <==> NoneReserved(keys[1..]) by {
        assert forall i :: 1 <= i < |keys| ==> keys[i] == keys[1..][i - 1];
      }
    }
  }

  /** Get-after-set: a successful `set` makes `get` at the same path yield the value. */
  lemma {:induction false} GetAfterSet(t: Tree, keys: seq<string>, value: Tree)
    requires |keys| >= 1
    requires SetAt(t, keys, value).outcome == Assigned
    ensures Lookup(SetAt(t, keys, value).tree, keys) == Some(value)
    decreases |keys|
  {
    if |keys| > 1 {
      var m := t.children;
      var child := if keys[0] in m then m[keys[0]] else Node(map[]);
      GetAfterSet(child, keys[1..], value);
    }
  }

  /**
   * Whatever was stored under the final key is replaced wholesale: below the
   * path, the tree now holds exactly the new value's contents.
   */
  lemma {:induction false} SetReplacesSubtree(t: Tree, keys: seq<string>, value: Tree, rest: seq<string>)
    requires |keys| >= 1 && |rest| >= 1
    requires SetAt(t, keys, value).outcome == Assigned
    ensures Lookup(SetAt(t, keys, value).tree, keys + rest) == Lookup(value, rest)
    decreases |keys|
  {
    assert (keys + rest)[0] == keys[0];
    if |keys| == 1 {
      assert (keys + rest)[1..] == rest;
    } else {
      var m := t.children;
      var child := if keys[0] in m then m[keys[0]] else Node(map[]);
      SetReplacesSubtree(child, keys[1..], value, rest);
      assert (keys + rest)[1..] == keys[1..] + rest;
    }
  }

  /** The two segment sequences part ways at some position both have. */
  predicate Diverge(p: seq<string>, q: seq<string>)
    decreases |p|
  {
    |p| > 0 && |q| > 0 && (p[0] != q[0] || Diverge(p[1..], q[1..]))
  }

  /**
   * Nothing else changes: whatever `set` ends with, every path that parts
   * ways with the written path reads as before (siblings included).
   */
  lemma {:induction false} SetLeavesOtherPaths(t: Tree, keys: seq<string>, value: Tree, q: seq<string>)
    requires |keys| >= 1 && |q| >= 1
    requires Diverge(keys, q)
    ensures Lookup(SetAt(t, keys, value).tree, q) == Lookup(t, q)
    decreases |keys|
  {
    if !IsReserved(keys[0]) && t.Node? && q[0] == keys[0] {
      var m := t.children;
      var child := if keys[0] in m then m[keys[0]] else Node(map[]);
      SetLeavesOtherPaths(child, keys[1..], value, q[1..]);
    }
  }

  /**
   * `set` never replaces an intermediate node: the mapping at each proper
   * prefix of the path keeps its entries and gains the next segment; one is
   * created, holding just that segment, only where nothing was there.
   */
  lemma {:induction false} SetKeepsIntermediates(t: Tree, keys: seq<string>, value: Tree, j: nat)
    requires j < |keys|
    requires SetAt(t, keys, value).outcome == Assigned
    ensures var after := Walk(SetAt(t, keys, value).tree, keys[..j]);
      && after.Some? && after.value.Node? && keys[j] in after.value.children
      && match Walk(t, keys[..j])
         case Some(Node(m)) =>
           && after.value.children.Keys == m.Keys + {keys[j]}
           && forall k :: k in m && k != keys[j] ==> after.value.children[k] == m[k]
         case _ => after.value.children.Keys == {keys[j]}
    decreases j
  {
    if j > 0 {
      var m := t.children;
      var child := if keys[0] in m then m[keys[0]] else Node(map[]);
      assert keys[..j][1..] == keys[1..][..j - 1];
      SetKeepsIntermediates(child, keys[1..], value, j - 1);
    }
  }

  /**
   * A reserved segment at position `j` (intermediate or final) makes `set`
   * return without assigning; the only change left behind is the empty
   * mappings created for the missing segments before it.
   */
  lemma {:induction false} SetStopsAtReserved(t: Tree, keys: seq<string>, value: Tree, j: nat)
    requires j < |keys|
    requires IsReserved(keys[j]) && NoneReserved(keys[..j])
    requires Descends(t, keys[..j])
    ensures SetAt(t, keys, value) == SetResult(EnsurePath(t, keys[..j]), Blocked)
    decreases j
  {
    if j > 0 {
      assert keys[..j][0] == keys[0];
      var m := t.children;
      var child := if keys[0] in m then m[keys[0]] else Node(map[]);
      assert keys[..j][1..] == keys[1..][..j - 1];
      var tail := keys[1..][..j - 1];
      assert NoneReserved(tail) by {
        forall i | 0 <= i < j - 1 ensures !IsReserved(tail[i]) {
          assert tail[i] == keys[..j][i + 1];
        }
      }
      SetStopsAtReserved(child, keys[1..], value, j - 1);
    }
  }

  /**
   * When the node `set` stands on at position `j` is a template, the
   * assignment on it throws; the empty mappings created before stay.
   */
  lemma {:induction false} SetFaultsOnTemplate(t: Tree, keys: seq<string>, value: Tree, j: nat)
    requires j < |keys|
    requires NoneReserved(keys[..j + 1])
    requires Descends(t, keys[..j]) && !Descends(t, keys[..j + 1])
    ensures SetAt(t, keys, value) == SetResult(EnsurePath(t, keys[..j]), Faulted)
    decreases j
  {
    assert keys[..j + 1][0] == keys[0];
    if j > 0 {
      assert keys[..j][0] == keys[0];
      var m := t.children;
      var child := if keys[0] in m then m[keys[0]] else Node(map[]);
      assert keys[..j][1..] == keys[1..][..j - 1];
      assert keys[..j + 1][1..] == keys[1..][..j];
      var tail := keys[1..][..j];
      assert NoneReserved(tail) by {
        forall i | 0 <= i < j ensures !IsReserved(tail[i]) {
          assert tail[i] == keys[..j + 1][i + 1];
        }
      }
      SetFaultsOnTemplate(child, keys[1..], value, j - 1);
    }
  }

  /** The template stored at `q`, if any. */
  function TemplateAt(t: Tree, q: seq<string>): Option<string>
    requires |q| >= 1
  {
    match Lookup(t, q)
    case Some(Leaf(s)) => Some(s)
    case _ => None
  }

  /**
   * Creating the missing mappings along a path adds only mappings: every
   * template stays where it was, none appears, and every existing mapping
   * keeps all its keys.
   */
  lemma {:induction false} EnsurePathAddsOnlyMappings(t: Tree, keys: seq<string>, q: seq<string>)
    requires |q| >= 1
    ensures TemplateAt(EnsurePath(t, keys), q) == TemplateAt(t, q)
    ensures match Lookup(t, q)
      case Some(Node(m)) =>
        var after := Lookup(EnsurePath(t, keys), q);
        after.Some? && after.value.Node? && m.Keys <= after.value.children.Keys
      case _ => true
    decreases |keys|
  {
    if keys != [] && t.Node? && q[0] == keys[0] && |q| > 1 {
      var m := t.children;
      var child := if keys[0] in m then m[keys[0]] else Node(map[]);
      EnsurePathAddsOnlyMappings(child, keys[1..], q[1..]);
    }
  }

  // ---------------------------------------------------------------- the store

  /** The frames above the node `set` stands on: each mapping and the key it descends by. */
  datatype Frame = Frame(entries: map<string, Tree>, key: string)

  /** Put a rewritten subtree back under the frames above it. */
  function Plug(above: seq<Frame>, sub: Tree): (r: Tree)
    ensures |above| > 0 || sub.Node? ==> r.Node?
    decreases |above|
  {
    if above == [] then sub
    else
      var f := above[|above| - 1];
      Plug(above[..|above| - 1], Node(f.entries[f.key := sub]))
  }

  /** The translation object that `set` updates in place. */
  class Translations {
    var root: Tree

    ghost predicate Valid()
      reads this
    {
      root.Node?
    }

    constructor ()
      ensures Valid() && root == Node(map[])
    {
      root := Node(map[]);
    }

    /**
     * `get(object, path)`: walk every segment but the last, giving up as soon
     * as the node in hand is not a mapping, then read the last segment.
     */
    method Get(path: string) returns (r: Option<Tree>)
      ensures r == ValueAt(root, path)
    {
      var keys := Segments(path);
      var reached := Some(root);
      for i := 0 to |keys| - 1
        invariant reached == Walk(root, keys[..i])
      {
        if !(reached.Some? && reached.value.Node?) {
          LookupStopsOffMappings(root, keys, i);
          return None;
        }
        WalkAppend(root, keys[..i], keys[i]);
        assert keys[..i + 1] == keys[..i] + [keys[i]];
        reached := ReadLast(reached, keys[i]);
      }
      LookupIsWalkThenRead(root, keys);
      r := ReadLast(reached, keys[|keys| - 1]);
    }

    /** `set(object, path, value)`. */
    method Set(path: string, value: Tree) returns (outcome: Outcome)
      requires Valid()
      modifies this
      ensures Valid()
      ensures SetResult(root, outcome) == SetAt(old(root), Segments(path), value)
    {
      var keys := Segments(path);
      var above: seq<Frame> := [];
      var node := root;
      var i := 0;
      while i < |keys| - 1
        invariant 0 <= i <= |keys| - 1
        invariant i == 0 ==> above == [] && node == root
        invariant i > 0 ==> |above| > 0
        invariant root == old(root)
        invariant var r := SetAt(node, keys[i..], value);
          SetResult(Plug(above, r.tree), r.outcome) == SetAt(root, keys, value)
      {
        var key := keys[i];
        if IsReserved(key) {
          root := Plug(above, node);
          return Blocked;
        }
        if node.Leaf? {
          root := Plug(above, node);
          return Faulted;
        }
        var entries := node.children;
        if key !in entries {
          entries := entries[key := Node(map[])];
        }
        ghost var r := SetAt(entries[key], keys[i + 1..], value);
        assert keys[i..][1..] == keys[i + 1..];
        assert keys[i..][0] == key && |keys[i..]| > 1;
        assert node.children[key := r.tree] == entries[key := r.tree];
        assert SetAt(node, keys[i..], value) == SetResult(Node(entries[key := r.tree]), r.outcome);
        assert Plug(above + [Frame(entries, key)], r.tree) == Plug(above, Node(entries[key := r.tree])) by {
          assert (above + [Frame(entries, key)])[..|above|] == above;
        }
        above := above + [Frame(entries, key)];
        node := entries[key];
        i := i + 1;
      }
      assert keys[i..] == [keys[i]];
      var lastKey := keys[|keys| - 1];
      if IsReserved(lastKey) {
        root := Plug(above, node);
        return Blocked;
      }
      if node.Leaf? {
        root := Plug(above, node);
        return Faulted;
      }
      root := Plug(above, Node(node.children[lastKey := value]));
      outcome := Assigned;
    }
  }
}
