/** Exported JSON Schemas: local references, the pruning of definitions nothing
    refers to, and the replacement of core types by cross-file references. */
module SchemaPruning {
  import opened Wrappers

  datatype Json =
    | Obj(fields: map<string, Json>)
    | Arr(items: seq<Json>)
    | Str(text: string)
    | Atom  // a number, a boolean or null

  const PREFIX: string := "#/$defs/"
  const REF: string := "$ref"
  const DEFS: string := "$defs"

  // ---- Local references ----------------------------------------------------------

  /** The definition a reference string names, if it is a local one. */
  function Target(text: string): Option<string> {
    if PREFIX <= text then Some(text[|PREFIX|..]) else None
  }

  /** The definition this very node refers to. */
  function RefOf(node: Json): Option<string> {
    if node.Obj? && REF in node.fields && node.fields[REF].Str? then Target(node.fields[REF].text) else None
  }

  /** The definitions the node or anything inside it refers to. */
  ghost function RefNames(node: Json): set<string> {
    (if RefOf(node).Some? then {RefOf(node).value} else {})
    + match node
      case Obj(fields) => set k, n | k in fields && n in RefNames(fields[k]) :: n
      case Arr(items) => set i, n | 0 <= i < |items| && n in RefNames(items[i]) :: n
      case _ => {}
  }

  /** The set that reference names are gathered into. */
  class Names {
    var elems: set<string>

    constructor ()
      ensures elems == {}
    {
      elems := {};
    }

    method LocalRefNames(node: Json)
      modifies this
      ensures elems == old(elems) + RefNames(node)
      decreases node
    {
      var ref := RefOf(node);
      if ref.Some? {
        elems := elems + {ref.value};
      }
      ghost var start := elems;
      match node
      case Obj(fields) =>
        var left := fields.Keys;
        while left != {}
          invariant left <= fields.Keys
          invariant elems == start + set k, n | k in fields && k !in left && n in RefNames(fields[k]) :: n
        {
          var key :| key in left;
          LocalRefNames(fields[key]);
          left := left - {key};
        }
        assert elems == start + set k, n | k in fields && n in RefNames(fields[k]) :: n;
      case Arr(items) =>
        for i := 0 to |items|
          invariant elems == start + set j, n | 0 <= j < i && n in RefNames(items[j]) :: n
        {
          LocalRefNames(items[i]);
        }
        assert elems == start + set j, n | 0 <= j < |items| && n in RefNames(items[j]) :: n;
      case _ =>
    }
  }

  // ---- Reachable definitions -------------------------------------------------------

  /** The definitions of a document, none when it has no "$defs" object. */
  function DefsOf(doc: map<string, Json>): map<string, Json> {
    if DEFS in doc && doc[DEFS].Obj? then doc[DEFS].fields else map[]
  }

  ghost function RootRefs(doc: map<string, Json>): set<string> { RefNames(Obj(doc - {DEFS})) }

  ghost function RefsFrom(doc: map<string, Json>, name: string): set<string> {
    if name in DefsOf(doc) then RefNames(DefsOf(doc)[name]) else {}
  }

  /** A chain of references that starts outside the definitions. */
  ghost predicate IsChain(doc: map<string, Json>, path: seq<string>) {
    && path != [] && path[0] in RootRefs(doc)
    && forall i :: 0 < i < |path| ==> path[i] in RefsFrom(doc, path[i - 1])
  }

  ghost predicate Reachable(doc: map<string, Json>, name: string) {
    exists path :: IsChain(doc, path) && path[|path| - 1] == name
  }

  /** Holds the root's references and, with each name, those of its definition. */
  ghost predicate IsClosed(doc: map<string, Json>, names: set<string>) {
    && RootRefs(doc) <= names
    && forall n :: n in names ==> RefsFrom(doc, n) <= names
  }

  lemma ReachableStep(doc: map<string, Json>, name: string, next: string)
    requires Reachable(doc, name) && next in RefsFrom(doc, name)
    ensures Reachable(doc, next)
  {
    var path :| IsChain(doc, path) && path[|path| - 1] == name;
    assert IsChain(doc, path + [next]);
  }

  lemma RootIsReachable(doc: map<string, Json>, name: string)
    requires name in RootRefs(doc)
    ensures Reachable(doc, name)
  {
    assert IsChain(doc, [name]);
  }

  lemma {:induction false} ChainStaysInside(doc: map<string, Json>, names: set<string>, path: seq<string>)
    requires IsClosed(doc, names) && IsChain(doc, path)
    ensures path[|path| - 1] in names
  {
    if |path| > 1 {
      var prefix := path[..|path| - 1];
      ChainStaysInside(doc, names, prefix);
      assert path[|path| - 1] in RefsFrom(doc, prefix[|prefix| - 1]);
    }
  }

  /** The names with a chain to them are the least closed set: they are in every
      closed set, and a set of exactly those names is closed. */
  lemma ReachableIsLeastClosed(doc: map<string, Json>, names: set<string>)
    requires forall n :: n in names <==> Reachable(doc, n)
    ensures IsClosed(doc, names)
    ensures forall other :: IsClosed(doc, other) ==> names <= other
  {
    forall n | n in RootRefs(doc) ensures n in names { RootIsReachable(doc, n); }
    forall n, m | n in names && m in RefsFrom(doc, n) ensures m in names { ReachableStep(doc, n, m); }
    forall other, n | IsClosed(doc, other) && n in names ensures n in other {
      var path :| IsChain(doc, path) && path[|path| - 1] == n;
      ChainStaysInside(doc, other, path);
    }
  }

  // ---- Pruning -----------------------------------------------------------------------

  /** The document without the definitions that nothing reaches. */
  ghost function Pruned(doc: map<string, Json>): map<string, Json> {
    if DefsOf(doc) == map[] then doc
    else doc[DEFS := Obj(map n | n in DefsOf(doc) && Reachable(doc, n) :: DefsOf(doc)[n])]
  }

  /** Every name that can ever enter the worklist. */
  ghost function Universe(doc: map<string, Json>): set<string> {
    RootRefs(doc) + set d, n | d in DefsOf(doc) && n in RefsFrom(doc, d) :: n
  }

  lemma StaysInUniverse(doc: map<string, Json>, name: string)
    requires name in DefsOf(doc)
    ensures RefsFrom(doc, name) <= Universe(doc)
  {
    hide RefsFrom, RootRefs;
  }

  lemma RootsInUniverse(doc: map<string, Json>)
    ensures RootRefs(doc) <= Universe(doc)
  {
    hide RootRefs, RefsFrom;
  }

  class Document {
    var fields: map<string, Json>

    constructor (fields: map<string, Json>)
      ensures this.fields == fields
    {
      this.fields := fields;
    }

    method PruneUnusedDefs()
      requires DEFS in fields ==> fields[DEFS].Obj?
      modifies this
      ensures fields == Pruned(old(fields))
    {
      hide RefNames, Reachable, IsChain, Universe;
      ghost var doc := fields;
      RootsInUniverse(doc);
      var defs := if DEFS in fields then fields[DEFS].fields else map[];
      if defs == map[] {
        return;
      }
      var roots := new Names();
      roots.LocalRefNames(Obj(fields - {DEFS}));
      var reachable := roots.elems;
      var frontier := reachable;
      forall n | n in reachable ensures Reachable(doc, n) { RootIsReachable(doc, n); }
      while frontier != {}
        invariant fields == doc
        invariant RootRefs(doc) <= reachable <= Universe(doc) && frontier <= reachable
        invariant forall n :: n in reachable ==> Reachable(doc, n)
        invariant forall n :: n in reachable && n !in frontier ==> RefsFrom(doc, n) <= reachable
        decreases Universe(doc) - reachable, frontier
      {
        var name :| name in frontier;
        frontier := frontier - {name};
        if name in defs {
          StaysInUniverse(doc, name);
          var found := new Names();
          found.LocalRefNames(defs[name]);
          var added := found.elems - reachable;
          forall n | n in added ensures Reachable(doc, n) { ReachableStep(doc, name, n); }
          reachable := reachable + added;
          frontier := frontier + added;
        }
      }
      WorklistIsReachable(doc, reachable);
      fields := fields[DEFS := Obj(defs - (set n | n in defs && n !in reachable))];
      assert fields[DEFS].fields == map n | n in defs && Reachable(doc, n) :: defs[n];
    }
  }

  lemma WorklistIsReachable(doc: map<string, Json>, names: set<string>)
    requires IsClosed(doc, names) && forall n :: n in names ==> Reachable(doc, n)
    ensures forall n :: n in names <==> Reachable(doc, n)
  {
    forall n | Reachable(doc, n) ensures n in names {
      var path :| IsChain(doc, path) && path[|path| - 1] == n;
      ChainStaysInside(doc, names, path);
    }
  }

  /** Every local reference of the document, in its root or in a definition,
      names a definition. */
  ghost predicate Resolves(doc: map<string, Json>) {
    && RootRefs(doc) <= DefsOf(doc).Keys
    && forall d :: d in DefsOf(doc) ==> RefsFrom(doc, d) <= DefsOf(doc).Keys
  }

  lemma PruningKeepsTheRest(doc: map<string, Json>)
    ensures Pruned(doc) - {DEFS} == doc - {DEFS}
    ensures RootRefs(Pruned(doc)) == RootRefs(doc)
    ensures forall n :: n in DefsOf(Pruned(doc)) <==> n in DefsOf(doc) && Reachable(doc, n)
    ensures forall n :: n in DefsOf(Pruned(doc)) ==> DefsOf(Pruned(doc))[n] == DefsOf(doc)[n]
  {
    assert Pruned(doc) - {DEFS} == doc - {DEFS};
  }

  /** Pruning breaks no chain and makes none, */
  lemma PruningKeepsReachability(doc: map<string, Json>, name: string)
    ensures Reachable(Pruned(doc), name) <==> Reachable(doc, name)
  {
    hide RefNames, Pruned;
    PruningKeepsTheRest(doc);
    if Reachable(doc, name) {
      var path :| IsChain(doc, path) && path[|path| - 1] == name;
      forall i | 0 < i < |path| ensures path[i] in RefsFrom(Pruned(doc), path[i - 1]) {
        var prefix := path[..i];
        assert IsChain(doc, prefix) && prefix[|prefix| - 1] == path[i - 1];
      }
      assert IsChain(Pruned(doc), path);
    }
    if Reachable(Pruned(doc), name) {
      var path :| IsChain(Pruned(doc), path) && path[|path| - 1] == name;
      assert IsChain(doc, path);
    }
  }

  /** so pruning again changes nothing, */
  lemma PruningTwiceIsPruningOnce(doc: map<string, Json>)
    ensures Pruned(Pruned(doc)) == Pruned(doc)
  {
    var once := Pruned(doc);
    PruningKeepsTheRest(doc);
    forall n ensures Reachable(once, n) <==> Reachable(doc, n) { PruningKeepsReachability(doc, n); }
    assert forall n :: n in DefsOf(once) ==> Reachable(once, n);
    if DefsOf(once) != map[] {
      assert (map n | n in DefsOf(once) && Reachable(once, n) :: DefsOf(once)[n]) == DefsOf(once);
    }
  }

  /** and a pruned document resolves exactly when what the root reaches is defined:
      a dangling reference is forgiven only inside a definition nothing reaches. */
  lemma PrunedResolvesIff(doc: map<string, Json>)
    ensures Resolves(Pruned(doc)) <==> forall n :: Reachable(doc, n) ==> n in DefsOf(doc)
  {
    var pruned := Pruned(doc);
    PruningKeepsTheRest(doc);
    if Resolves(pruned) {
      forall n | Reachable(doc, n) ensures n in DefsOf(doc) {
        PruningKeepsReachability(doc, n);
        var path :| IsChain(pruned, path) && path[|path| - 1] == n;
        ChainStaysInside(pruned, DefsOf(pruned).Keys, path);
      }
    }
    if forall n :: Reachable(doc, n) ==> n in DefsOf(doc) {
      forall n | n in RootRefs(doc) ensures n in DefsOf(pruned) { RootIsReachable(doc, n); }
      forall d, n | d in DefsOf(pruned) && n in RefsFrom(pruned, d) ensures n in DefsOf(pruned) {
        ReachableStep(doc, d, n);
      }
    }
  }

  /** In particular a document that resolved still does. */
  lemma PruningKeepsResolution(doc: map<string, Json>)
    requires Resolves(doc)
    ensures Resolves(Pruned(doc))
  {
    forall n | Reachable(doc, n) ensures n in DefsOf(doc) {
      var path :| IsChain(doc, path) && path[|path| - 1] == n;
      ChainStaysInside(doc, DefsOf(doc).Keys, path);
    }
    PrunedResolvesIff(doc);
  }

  // ---- Externalizing -------------------------------------------------------------------

  /** `externals` maps a core type to the cross-file reference that replaces it. */
  ghost predicate AllExternal(externals: map<string, string>) {
    forall name :: name in externals ==> Target(externals[name]).None?
  }

  predicate IsExternalized(node: Json, externals: map<string, string>) {
    RefOf(node).Some? && RefOf(node).value in externals
  }

  function Rewrite(node: Json, externals: map<string, string>): (out: Json)
    ensures (node.Obj? <==> out.Obj?) && (node.Str? <==> out.Str?) && (node.Str? ==> out == node)
  {
    if IsExternalized(node, externals) then Obj(map[REF := Str(externals[RefOf(node).value])])
    else
      match node
      case Obj(fields) => Obj(map k | k in fields :: Rewrite(fields[k], externals))
      case Arr(items) => Arr(seq(|items|, i requires 0 <= i < |items| => Rewrite(items[i], externals)))
      case _ => node
  }

  /** A rewritten node refers to nothing new and to no core type. */
  lemma {:induction false} RewriteDropsCoreTypes(node: Json, externals: map<string, string>)
    requires AllExternal(externals)
    ensures RefNames(Rewrite(node, externals)) <= RefNames(node) - externals.Keys
    decreases node
  {
    var out := Rewrite(node, externals);
    if IsExternalized(node, externals) {
      assert out.fields.Keys == {REF} && RefOf(out).None?;
      assert RefNames(out) == {};
      return;
    }
    match node
    case Obj(fields) =>
      forall k | k in fields ensures RefNames(out.fields[k]) <= RefNames(fields[k]) - externals.Keys {
        RewriteDropsCoreTypes(fields[k], externals);
      }
      RefIsKept(fields, out.fields, externals);
    case Arr(items) =>
      forall i | 0 <= i < |items| ensures RefNames(out.items[i]) <= RefNames(items[i]) - externals.Keys {
        RewriteDropsCoreTypes(items[i], externals);
      }
    case _ =>
  }

  /** Rewriting leaves a node alone exactly when nothing in it refers to a core type. */
  lemma {:induction false} RewriteFixesIff(node: Json, externals: map<string, string>)
    requires AllExternal(externals)
    ensures Rewrite(node, externals) == node <==> RefNames(node) !! externals.Keys
    decreases node
  {
    RewriteDropsCoreTypes(node, externals);
    if RefNames(node) !! externals.Keys {
      match node
      case Obj(fields) =>
        forall k | k in fields ensures Rewrite(fields[k], externals) == fields[k] {
          RewriteFixesIff(fields[k], externals);
        }
        assert Rewrite(node, externals).fields == fields;
      case Arr(items) =>
        forall i | 0 <= i < |items| ensures Rewrite(items[i], externals) == items[i] {
          RewriteFixesIff(items[i], externals);
        }
        assert Rewrite(node, externals).items == items;
      case _ =>
    }
  }

  lemma RefIsKept(fields: map<string, Json>, out: map<string, Json>, externals: map<string, string>)
    requires out.Keys == fields.Keys && forall k :: k in fields ==> out[k] == Rewrite(fields[k], externals)
    ensures RefOf(Obj(out)) == RefOf(Obj(fields))
  {}

  /** The whole export step: rewrite, drop the core types, prune. */
  ghost function Externalized(doc: map<string, Json>, externals: map<string, string>): map<string, Json> {
    Pruned(Dropped(doc, externals))
  }

  /** The rewritten document without the core types' own definitions. */
  ghost function Dropped(doc: map<string, Json>, externals: map<string, string>): map<string, Json> {
    var rewritten := Rewrite(Obj(doc), externals).fields;
    if DEFS in rewritten && rewritten[DEFS].Obj?
    then rewritten[DEFS := Obj(rewritten[DEFS].fields - externals.Keys)]
    else rewritten
  }

  /** What dropping leaves: fewer references, and every definition but the core types'. */
  lemma DroppedRefs(doc: map<string, Json>, externals: map<string, string>)
    requires AllExternal(externals) && DefsAreSchemas(doc)
    ensures
      var mid := Dropped(doc, externals);
      && RootRefs(mid) <= RootRefs(doc) - externals.Keys
      && (forall d :: d in DefsOf(mid) ==> d in DefsOf(doc) && RefsFrom(mid, d) <= RefsFrom(doc, d) - externals.Keys)
      && if IsExternalized(Obj(doc), externals) then RootRefs(mid) == {} && DefsOf(mid) == map[]
         else DefsOf(mid).Keys == DefsOf(doc).Keys - externals.Keys
  {
    var rewritten := Rewrite(Obj(doc), externals).fields;
    var mid := Dropped(doc, externals);
    if IsExternalized(Obj(doc), externals) {
      assert rewritten == map[REF := Str(externals[RefOf(Obj(doc)).value])];
      assert mid == rewritten && mid - {DEFS} == mid;
      RewriteDropsCoreTypes(Obj(doc), externals);
      assert RefOf(Obj(mid)).None?;
      return;
    }
    var root := doc - {DEFS};
    assert RefOf(Obj(root)) == RefOf(Obj(doc));
    assert mid - {DEFS} == Rewrite(Obj(root), externals).fields;
    RewriteDropsCoreTypes(Obj(root), externals);
    if DEFS in doc {
      var defs := doc[DEFS].fields;
      assert rewritten[DEFS] == Rewrite(doc[DEFS], externals);
      assert REF in defs ==> !DefsOf(doc)[REF].Str?;
      forall d | d in DefsOf(mid) ensures d in defs && DefsOf(mid)[d] == Rewrite(defs[d], externals) {}
      forall d | d in DefsOf(mid) ensures RefsFrom(mid, d) <= RefsFrom(doc, d) - externals.Keys {
        RewriteDropsCoreTypes(defs[d], externals);
      }
    }
  }


  /** Every definition and every $defs entry is a schema, never a bare string. */
  ghost predicate DefsAreSchemas(doc: map<string, Json>) {
    (DEFS in doc ==> doc[DEFS].Obj?) && forall n :: n in DefsOf(doc) ==> !DefsOf(doc)[n].Str?
  }

  /** After the export step no reference to a core type is left, nor a definition of one. */
  lemma NoCoreTypeIsLeft(doc: map<string, Json>, externals: map<string, string>)
    requires AllExternal(externals) && DefsAreSchemas(doc)
    ensures
      var out := Externalized(doc, externals);
      && RootRefs(out) !! externals.Keys
      && (forall d :: d in DefsOf(out) ==> RefsFrom(out, d) !! externals.Keys)
      && DefsOf(out).Keys !! externals.Keys
  {
    var mid := Dropped(doc, externals);
    DroppedRefs(doc, externals);
    PruningKeepsTheRest(mid);
  }

  /** If every local reference resolved before, every one resolves after. */
  lemma ExternalizingKeepsResolution(doc: map<string, Json>, externals: map<string, string>)
    requires AllExternal(externals) && DefsAreSchemas(doc) && Resolves(doc)
    ensures Resolves(Externalized(doc, externals))
  {
    var mid := Dropped(doc, externals);
    DroppedRefs(doc, externals);
    assert Resolves(mid);
    PruningKeepsResolution(mid);
  }

  method ExternalizeCoreTypes(doc: map<string, Json>, externals: map<string, string>) returns (out: Document)
    ensures fresh(out) && out.fields == Externalized(doc, externals)
  {
    out := new Document(Rewrite(Obj(doc), externals).fields);
    if DEFS in out.fields && out.fields[DEFS].Obj? {
      out.fields := out.fields[DEFS := Obj(out.fields[DEFS].fields - externals.Keys)];
      out.PruneUnusedDefs();
    }
  }
}
