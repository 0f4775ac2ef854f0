/** What references, pruning and externalizing mean on the documents themselves: which
    strings refer, where they stand, what replaces them. */
module SchemaMeaning {
  import opened Wrappers
  import opened SchemaPruning

  // ---- References ---------------------------------------------------------------------------

  /** The node is a reference to the definition n of its own document. */
  predicate Refers(node: Json, n: string) {
    node.Obj? && "$ref" in node.fields && node.fields["$ref"] == Str("#/$defs/" + n)
  }

  lemma RefersIff(node: Json, n: string)
    ensures RefOf(node) == Some(n) <==> Refers(node, n)
  {
    if node.Obj? && "$ref" in node.fields && node.fields["$ref"].Str? {
      TargetIs(node.fields["$ref"].text, n);
    }
  }

  lemma TargetIs(text: string, n: string)
    ensures Target(text) == Some(n) <==> text == "#/$defs/" + n
  {
    assert PREFIX == "#/$defs/";
    if text == "#/$defs/" + n {
      assert text[..|PREFIX|] == PREFIX && text[|PREFIX|..] == n;
    }
    if PREFIX <= text {
      assert text == PREFIX + text[|PREFIX|..];
    }
  }

  /** sub stands somewhere in node, as a value of an object or an item of an array, at any
      depth. */
  ghost predicate StandsIn(sub: Json, node: Json)
    decreases node
  {
    || sub == node
    || (node.Obj? && exists k :: k in node.fields && StandsIn(sub, node.fields[k]))
    || (node.Arr? && exists i :: 0 <= i < |node.items| && StandsIn(sub, node.items[i]))
  }

  /** The names gathered from a node are exactly those that something standing in it
      refers to. */
  lemma {:induction false} RefNamesIff(node: Json, n: string)
    ensures n in RefNames(node) <==> exists sub :: StandsIn(sub, node) && Refers(sub, n)
    decreases node
  {
    RefersIff(node, n);
    match node
    case Obj(fields) =>
      forall k | k in fields
        ensures n in RefNames(fields[k]) <==> exists sub :: StandsIn(sub, fields[k]) && Refers(sub, n)
      {
        RefNamesIff(fields[k], n);
      }
      ObjectRefers(node, n);
    case Arr(items) =>
      forall i | 0 <= i < |items|
        ensures n in RefNames(items[i]) <==> exists sub :: StandsIn(sub, items[i]) && Refers(sub, n)
      {
        RefNamesIff(items[i], n);
      }
      ArrayRefers(node, n);
    case _ =>
  }

  lemma ObjectRefers(node: Json, n: string)
    requires node.Obj?
    requires forall k :: k in node.fields ==>
      (n in RefNames(node.fields[k]) <==> exists sub :: StandsIn(sub, node.fields[k]) && Refers(sub, n))
    requires RefOf(node) == Some(n) <==> Refers(node, n)
    ensures n in RefNames(node) <==> exists sub :: StandsIn(sub, node) && Refers(sub, n)
  {
    hide Refers, RefOf;
    if sub :| StandsIn(sub, node) && Refers(sub, n) {
      if sub != node {
        var k :| k in node.fields && StandsIn(sub, node.fields[k]);
      }
    }
    if k :| k in node.fields && n in RefNames(node.fields[k]) {
      var sub :| StandsIn(sub, node.fields[k]) && Refers(sub, n);
      assert StandsIn(sub, node);
    }
  }

  lemma ArrayRefers(node: Json, n: string)
    requires node.Arr?
    requires forall i :: 0 <= i < |node.items| ==>
      (n in RefNames(node.items[i]) <==> exists sub :: StandsIn(sub, node.items[i]) && Refers(sub, n))
    ensures n in RefNames(node) <==> exists sub :: StandsIn(sub, node) && Refers(sub, n)
  {
    assert RefOf(node).None? && !Refers(node, n);
    hide Refers;
    if sub :| StandsIn(sub, node) && Refers(sub, n) {
      var i :| 0 <= i < |node.items| && StandsIn(sub, node.items[i]);
    }
    if i :| 0 <= i < |node.items| && n in RefNames(node.items[i]) {
      var sub :| StandsIn(sub, node.items[i]) && Refers(sub, n);
      assert StandsIn(sub, node);
    }
  }

  /** Where a chain starts: a reference standing in a part of the document other than its
      definitions; and where one goes on: a reference standing in a definition. */
  lemma ChainsAreOfReferences(doc: map<string, Json>, d: string, n: string)
    ensures n in RootRefs(doc) <==>
      Refers(Obj(doc - {"$defs"}), n)
      || exists k, sub :: k in doc && k != "$defs" && StandsIn(sub, doc[k]) && Refers(sub, n)
    ensures n in RefsFrom(doc, d) <==>
      "$defs" in doc && doc["$defs"].Obj? && d in doc["$defs"].fields
      && exists sub :: StandsIn(sub, doc["$defs"].fields[d]) && Refers(sub, n)
  {
    var root := Obj(doc - {"$defs"});
    RefNamesIff(root, n);
    if d in DefsOf(doc) {
      RefNamesIff(DefsOf(doc)[d], n);
    }
    hide Refers;
    if sub :| StandsIn(sub, root) && Refers(sub, n) {
      if sub != root {
        var k :| k in root.fields && StandsIn(sub, root.fields[k]);
        assert k in doc && k != "$defs" && StandsIn(sub, doc[k]);
      }
    }
    if k, sub :| k in doc && k != "$defs" && StandsIn(sub, doc[k]) && Refers(sub, n) {
      assert k in root.fields && root.fields[k] == doc[k];
      assert StandsIn(sub, root);
    }
  }

  // ---- Pruning ---------------------------------------------------------------------------------

  /** What is kept: everything outside the definitions as it was, and of the definitions
      those at the end of a chain of references, as they were. */
  lemma PruningKeeps(doc: map<string, Json>)
    requires "$defs" in doc ==> doc["$defs"].Obj?
    ensures
      var out := Pruned(doc);
      && out.Keys == doc.Keys && (forall k :: k in doc && k != "$defs" ==> out[k] == doc[k])
      && ("$defs" in doc ==>
          && out["$defs"].Obj?
          && (forall n :: n in out["$defs"].fields <==> n in doc["$defs"].fields && Reachable(doc, n))
          && forall n :: n in out["$defs"].fields ==> out["$defs"].fields[n] == doc["$defs"].fields[n])
  {
    PruningKeepsTheRest(doc);
    hide Reachable;
    assert DEFS == "$defs";
  }

  // ---- Externalizing ------------------------------------------------------------------------------

  /** How a node is rewritten: a reference to a core type becomes the reference its name is
      mapped to and nothing else; any other node keeps its shape, its parts rewritten. */
  ghost predicate IsRewritten(node: Json, out: Json, externals: map<string, string>) {
    && (forall n :: n in externals && Refers(node, n) ==> out == Obj(map["$ref" := Str(externals[n])]))
    && ((forall n :: n in externals ==> !Refers(node, n)) ==> KeepsItsShape(node, out, externals))
  }

  ghost predicate KeepsItsShape(node: Json, out: Json, externals: map<string, string>) {
    match node
    case Obj(fields) =>
      && out.Obj? && out.fields.Keys == fields.Keys
      && forall k :: k in fields ==> out.fields[k] == Rewrite(fields[k], externals)
    case Arr(items) =>
      && out.Arr? && |out.items| == |items|
      && forall i :: 0 <= i < |items| ==> out.items[i] == Rewrite(items[i], externals)
    case _ => out == node
  }

  lemma RewriteIs(node: Json, externals: map<string, string>)
    ensures IsRewritten(node, Rewrite(node, externals), externals)
  {
    if RefOf(node).Some? {
      RefersIff(node, RefOf(node).value);
    }
    forall n ensures RefOf(node) == Some(n) <==> Refers(node, n) { RefersIff(node, n); }
    hide Refers, RefOf;
  }

  /** What the export step leaves of a document that is not itself a reference to a core
      type: every part rewritten, and of the definitions those that are no core type and
      still end a chain once core types are references abroad. */
  lemma ExternalizedIs(doc: map<string, Json>, externals: map<string, string>)
    requires AllExternal(externals) && DefsAreSchemas(doc) && !IsExternalized(Obj(doc), externals)
    ensures
      var mid := Dropped(doc, externals);
      var out := Externalized(doc, externals);
      && out.Keys == doc.Keys && (forall k :: k in doc && k != "$defs" ==> out[k] == Rewrite(doc[k], externals))
      && ("$defs" in doc ==>
          && out["$defs"].Obj?
          && (forall n :: n in out["$defs"].fields <==>
              n in doc["$defs"].fields && n !in externals && Reachable(mid, n))
          && forall n :: n in out["$defs"].fields ==>
              out["$defs"].fields[n] == Rewrite(doc["$defs"].fields[n], externals))
  {
    var mid := Dropped(doc, externals);
    assert DEFS == "$defs";
    if DEFS in doc {
      assert REF in doc[DEFS].fields ==> !DefsOf(doc)[REF].Str?;
      assert !IsExternalized(doc[DEFS], externals);
      assert Rewrite(doc[DEFS], externals).fields.Keys == doc[DEFS].fields.Keys;
      forall n | n in doc[DEFS].fields
        ensures Rewrite(doc[DEFS], externals).fields[n] == Rewrite(doc[DEFS].fields[n], externals)
      {}
    }
    assert mid.Keys == doc.Keys;
    PruningKeeps(mid);
    hide Reachable, Pruned;
  }
}
