/** Document loading: importing named entries from fragment files listed
    under `includes`, layering the `global_values` tables, and applying
    command-line overrides. Files are given already parsed: a missing file
    is a name without a fragment. */
module Runtime {
  import opened Wrappers
  import opened Dicts
  import opened Config

  /** A parsed top-level document: its `includes` directive (file name to
      the entity names imported from it), when it has one, and its other
      entries in document order. */
  datatype DocumentRep = DocumentRep(includes: Option<Dict<seq<string>>>, conf: Conf)

  /** The key the directive is read from; it is never one of the entries. */
  const Includes: string := "includes"

  type Document = d: DocumentRep | Includes !in d.conf.items witness DocumentRep(None, DictRep([], map[]))

  /** A parsed fragment file. */
  type Fragment = map<string, Descriptor>

  datatype LoadError =
    | FileMissing(file: string)              // the fragment cannot be opened
    | NameMissing(file: string, name: string) // a requested name is not in its fragment
    | ImportedTwice(name: string)            // a name is imported a second time
    | Collision(names: set<string>)          // imported names clash with the document's own

  /** The table a `global_values` entry holds; an entry with a `type` key
      is read as an empty table. */
  function TableOf(d: Descriptor): map<string, Json> {
    match d
    case Raw(f) => f
    case Obj(_, _, _, _, _, _, _) => map[]
  }

  // ---------------------------------------------------------------------
  // Layered global values.
  // ---------------------------------------------------------------------

  /** Tables layered so that the first table holding a key decides it. */
  function FirstWins(layers: seq<map<string, Json>>): (r: map<string, Json>)
    decreases |layers|
  {
    if layers == [] then map[] else FirstWins(layers[1..]) + layers[0]
  }

  /** A key of the layering is a key of some layer, and takes its value
      from the first layer that has it. */
  lemma {:induction false} FirstWinsPicksFirst(layers: seq<map<string, Json>>, x: string)
    ensures x in FirstWins(layers) <==> exists j | 0 <= j < |layers| :: x in layers[j]
    ensures forall j | 0 <= j < |layers| && x in layers[j] && (forall i | 0 <= i < j :: x !in layers[i]) ::
      FirstWins(layers)[x] == layers[j][x]
    decreases |layers|
  {
    if layers != [] {
      FirstWinsPicksFirst(layers[1..], x);
      if x !in layers[0] {
        if exists j | 0 <= j < |layers| :: x in layers[j] {
          var j :| 0 <= j < |layers| && x in layers[j];
          assert x in layers[1..][j - 1];
        }
        forall j | 0 <= j < |layers| && x in layers[j] && (forall i | 0 <= i < j :: x !in layers[i])
          ensures FirstWins(layers)[x] == layers[j][x]
        {
          assert layers[j] == layers[1..][j - 1];
          assert forall i | 0 <= i < j - 1 :: x !in layers[1..][i] by {
            forall i | 0 <= i < j - 1 ensures x !in layers[1..][i] {
              assert layers[1..][i] == layers[i + 1];
            }
          }
        }
      }
    }
  }

  lemma FirstWinsCons(x: map<string, Json>, b: map<string, Json>, rest: seq<map<string, Json>>)
    ensures FirstWins([x + b] + rest) == FirstWins([b, x] + rest)
  {
    assert ([x + b] + rest)[1..] == rest;
    assert ([b, x] + rest)[1..] == [x] + rest;
    assert ([x] + rest)[1..] == rest;
  }

  // ---------------------------------------------------------------------
  // load_includes
  // ---------------------------------------------------------------------

  /** The names requested from one fragment, imported in order: each must
      be in the fragment and not imported already. */
  function ImportNames(file: string, names: seq<string>, frag: Fragment, ret: Dict<Descriptor>)
    : (r: Result<Dict<Descriptor>, LoadError>)
    ensures r.Success? <==> (forall n | n in names :: n in frag) && Distinct(ret.keys + names)
    ensures r.Success? ==> r.value.keys == ret.keys + names
    ensures r.Success? ==> forall n | n in r.value.items ::
      r.value.items[n] == if n in names then frag[n] else ret.items[n]
    decreases |names|
  {
    if names == [] then
      assert ret.keys + names == ret.keys;
      Success(ret)
    else
      var n := names[0];
      DistinctStep(ret, names);
      if n !in frag then Failure(NameMissing(file, n))
      else if n in ret.items then Failure(ImportedTwice(n))
      else
        var ret' := Put(ret, n, frag[n]);
        assert ret'.keys + names[1..] == ret.keys + names;
        ImportNames(file, names[1..], frag, ret')
  }

  /** Appending a list of names to a registry's keys keeps them distinct
      exactly when the first name is new and the rest can follow it. */
  lemma DistinctStep<V>(ret: Dict<V>, names: seq<string>)
    requires names != []
    ensures Distinct(ret.keys + names) <==>
      names[0] !in ret.items && Distinct((ret.keys + [names[0]]) + names[1..])
  {
    DictKeys(ret);
    assert ret.keys + names == (ret.keys + [names[0]]) + names[1..];
    var s := ret.keys + names;
    if Distinct(s) {
      forall j | 0 <= j < |ret.keys| ensures ret.keys[j] != names[0] {
        assert s[j] == ret.keys[j] && s[|ret.keys|] == names[0];
      }
    }
    if names[0] !in ret.items && Distinct((ret.keys + [names[0]]) + names[1..]) {
      assert Distinct(s);
    }
  }

  /** `conf['global_values']` after a fragment with a table is read: the
      fragment's table with the document's entries over it. */
  function MergeGlobals(frag: Fragment, conf: Conf): (r: Conf)
    ensures forall k | k != GlobalValues :: (k in r.items <==> k in conf.items)
    ensures forall k | k != GlobalValues && k in conf.items :: r.items[k] == conf.items[k]
  {
    if GlobalValues !in frag then conf
    else
      var base := if GlobalValues in conf.items then TableOf(conf.items[GlobalValues]) else map[];
      Put(conf, GlobalValues, Raw(TableOf(frag[GlobalValues]) + base))
  }

  /** The loop over the included files, in the order the directive lists
      them. */
  function LoadFiles(files: seq<string>, includes: Dict<seq<string>>, fragments: map<string, Fragment>,
                     ret: Dict<Descriptor>, conf: Conf)
    : (r: Result<(Dict<Descriptor>, Conf), LoadError>)
    requires forall f | f in files :: f in includes.items
    decreases |files|
  {
    if files == [] then Success((ret, conf))
    else
      var f := files[0];
      if f !in fragments then Failure(FileMissing(f))
      else if |fragments[f]| == 0 then LoadFiles(files[1..], includes, fragments, ret, conf)
      else
        match ImportNames(f, includes.items[f], fragments[f], ret)
        case Failure(e) => Failure(e)
        case Success(ret') => LoadFiles(files[1..], includes, fragments, ret', MergeGlobals(fragments[f], conf))
  }

  /** `load_includes`: the imported entries, and the document with the
      directive gone and the global values layered. */
  function LoadIncludes(doc: Document, fragments: map<string, Fragment>): (r: Result<(Dict<Descriptor>, Conf), LoadError>) {
    match doc.includes
    case None => Success((Empty(), doc.conf))
    case Some(inc) =>
      DictKeys(inc);
      LoadFiles(inc.keys, inc, fragments, Empty(), doc.conf)
  }

  // ---------------------------------------------------------------------
  // The reference: what the loop imports and layers.
  // ---------------------------------------------------------------------

  /** Files the loop reads entries from: present and not empty. */
  predicate Used(f: string, fragments: map<string, Fragment>) {
    f in fragments && |fragments[f]| > 0
  }

  /** The names imported from `files`, in import order. */
  function Requested(files: seq<string>, includes: Dict<seq<string>>, fragments: map<string, Fragment>): seq<string>
    requires forall f | f in files :: f in includes.items
    decreases |files|
  {
    if files == [] then []
    else (if Used(files[0], fragments) then includes.items[files[0]] else []) + Requested(files[1..], includes, fragments)
  }

  /** The `global_values` tables of the used fragments, in file order. */
  function Layers(files: seq<string>, fragments: map<string, Fragment>): seq<map<string, Json>>
    decreases |files|
  {
    if files == [] then []
    else
      (if Used(files[0], fragments) && GlobalValues in fragments[files[0]]
       then [TableOf(fragments[files[0]][GlobalValues])] else []) + Layers(files[1..], fragments)
  }

  /** The document's own table, as a layer list of zero or one tables. */
  function BaseLayer(conf: Conf): seq<map<string, Json>> {
    if GlobalValues in conf.items then [TableOf(conf.items[GlobalValues])] else []
  }

  /** Every file can be read and every name requested from a used file is
      in it. */
  predicate AllFound(files: seq<string>, includes: Dict<seq<string>>, fragments: map<string, Fragment>)
    requires forall f | f in files :: f in includes.items
  {
    forall f | f in files :: f in fragments && (|fragments[f]| > 0 ==> forall n | n in includes.items[f] :: n in fragments[f])
  }

  /** The loop succeeds exactly when every file is found with every name
      requested from it, and no name is imported twice. Empty fragments
      contribute nothing, not even their names. */
  lemma {:induction false} LoadFilesSucceeds(files: seq<string>, includes: Dict<seq<string>>, fragments: map<string, Fragment>,
                                            ret: Dict<Descriptor>, conf: Conf)
    requires forall f | f in files :: f in includes.items
    ensures LoadFiles(files, includes, fragments, ret, conf).Success? <==>
      AllFound(files, includes, fragments) && Distinct(ret.keys + Requested(files, includes, fragments))
    ensures LoadFiles(files, includes, fragments, ret, conf).Success? ==>
      LoadFiles(files, includes, fragments, ret, conf).value.0.keys == ret.keys + Requested(files, includes, fragments)
    decreases |files|
  {
    if files == [] {
      assert ret.keys + [] == ret.keys;
    } else {
      var f := files[0];
      var rest := files[1..];
      var req := Requested(rest, includes, fragments);
      if f !in fragments {
      } else if |fragments[f]| == 0 {
        LoadFilesSucceeds(rest, includes, fragments, ret, conf);
        assert Requested(files, includes, fragments) == req;
      } else {
        var names := includes.items[f];
        assert Requested(files, includes, fragments) == names + req;
        assert ret.keys + (names + req) == (ret.keys + names) + req;
        var im := ImportNames(f, names, fragments[f], ret);
        if im.Success? {
          LoadFilesSucceeds(rest, includes, fragments, im.value, MergeGlobals(fragments[f], conf));
        } else if Distinct((ret.keys + names) + req) {
          DistinctPrefix(ret.keys + names, req);
        }
      }
    }
  }

  /** A key already in `d` cannot be appended again without a repeat. */
  lemma DistinctExcludes<V>(d: Dict<V>, s: seq<string>, n: string)
    requires Distinct(d.keys + s) && n in d.items
    ensures n !in s
  {
    DictKeys(d);
    forall j | 0 <= j < |s| ensures s[j] !in d.keys {
      forall i | 0 <= i < |d.keys| ensures d.keys[i] != s[j] {
        assert (d.keys + s)[i] == d.keys[i] && (d.keys + s)[|d.keys| + j] == s[j];
      }
    }
  }

  /** Every imported name holds the entry of the fragment it was requested
      from, and what was imported before is kept. */
  lemma {:induction false} LoadFilesEntries(files: seq<string>, includes: Dict<seq<string>>, fragments: map<string, Fragment>,
                                           ret: Dict<Descriptor>, conf: Conf)
    requires forall f | f in files :: f in includes.items
    requires LoadFiles(files, includes, fragments, ret, conf).Success?
    ensures var r := LoadFiles(files, includes, fragments, ret, conf).value.0;
      forall n | n in ret.items :: n in r.items && r.items[n] == ret.items[n]
    ensures var r := LoadFiles(files, includes, fragments, ret, conf).value.0;
      forall f | f in files && f in includes.items && Used(f, fragments) :: forall n | n in includes.items[f] :: n in fragments[f] && n in r.items && r.items[n] == fragments[f][n]
    decreases |files|
  {
    if files != [] {
      var f := files[0];
      var rest := files[1..];
      if |fragments[f]| == 0 {
        LoadFilesEntries(rest, includes, fragments, ret, conf);
      } else {
        var names := includes.items[f];
        var ret' := ImportNames(f, names, fragments[f], ret).value;
        var conf' := MergeGlobals(fragments[f], conf);
        LoadFilesEntries(rest, includes, fragments, ret', conf');
        forall n | n in ret.items ensures n in ret'.items && ret'.items[n] == ret.items[n] {
          DistinctExcludes(ret, names, n);
        }
        DictKeys(ret');
      }
    }
  }

  /** After the loop `global_values` is the layering of the document's own
      table over the tables of the used fragments in file order; without
      any fragment table the document is unchanged. */
  lemma {:induction false} LoadFilesGlobals(files: seq<string>, includes: Dict<seq<string>>, fragments: map<string, Fragment>,
                                           ret: Dict<Descriptor>, conf: Conf)
    requires forall f | f in files :: f in includes.items
    requires LoadFiles(files, includes, fragments, ret, conf).Success?
    ensures Layers(files, fragments) == [] ==> LoadFiles(files, includes, fragments, ret, conf).value.1 == conf
    ensures Layers(files, fragments) != [] ==>
      var c := LoadFiles(files, includes, fragments, ret, conf).value.1;
      GlobalValues in c.items && c.items[GlobalValues] == Raw(FirstWins(BaseLayer(conf) + Layers(files, fragments)))
    decreases |files|
  {
    if files != [] {
      var f := files[0];
      var rest := files[1..];
      if |fragments[f]| == 0 {
        LoadFilesGlobals(rest, includes, fragments, ret, conf);
        assert Layers(files, fragments) == Layers(rest, fragments);
      } else {
        var ret' := ImportNames(f, includes.items[f], fragments[f], ret).value;
        var conf' := MergeGlobals(fragments[f], conf);
        assert LoadFiles(files, includes, fragments, ret, conf) == LoadFiles(rest, includes, fragments, ret', conf');
        LoadFilesGlobals(rest, includes, fragments, ret', conf');
        if GlobalValues in fragments[f] {
          var x := TableOf(fragments[f][GlobalValues]);
          var L := Layers(rest, fragments);
          assert Layers(files, fragments) == [x] + L;
          MergeGlobalsLayer(fragments[f], conf, L);
          if L == [] {
            assert [x] + L == [x];
          }
        } else {
          assert conf' == conf;
          assert Layers(files, fragments) == Layers(rest, fragments);
        }
      }
    }
  }

  /** The loop touches no entry of the document but `global_values`. */
  lemma {:induction false} LoadFilesKeepsEntries(files: seq<string>, includes: Dict<seq<string>>, fragments: map<string, Fragment>,
                                                ret: Dict<Descriptor>, conf: Conf, k: string)
    requires forall f | f in files :: f in includes.items
    requires LoadFiles(files, includes, fragments, ret, conf).Success?
    requires k != GlobalValues
    ensures var c := LoadFiles(files, includes, fragments, ret, conf).value.1;
      (k in c.items <==> k in conf.items) && (k in conf.items ==> c.items[k] == conf.items[k])
    decreases |files|
  {
    if files != [] {
      var f := files[0];
      if |fragments[f]| == 0 {
        LoadFilesKeepsEntries(files[1..], includes, fragments, ret, conf, k);
      } else {
        var ret' := ImportNames(f, includes.items[f], fragments[f], ret).value;
        LoadFilesKeepsEntries(files[1..], includes, fragments, ret', MergeGlobals(fragments[f], conf), k);
      }
    }
  }

  /** Merging one fragment's table puts it under the document's own. */
  lemma MergeGlobalsBase(frag: Fragment, conf: Conf)
    requires GlobalValues in frag
    ensures var y := TableOf(frag[GlobalValues]) + FirstWins(BaseLayer(conf));
      MergeGlobals(frag, conf).items[GlobalValues] == Raw(y) && BaseLayer(MergeGlobals(frag, conf)) == [y]
  {
    if GlobalValues in conf.items {
      assert FirstWins([TableOf(conf.items[GlobalValues])]) == FirstWins([]) + TableOf(conf.items[GlobalValues]);
    } else {
      assert TableOf(frag[GlobalValues]) + map[] == TableOf(frag[GlobalValues]);
    }
  }

  /** A table merged under a base of at most one layer is the same as a
      layer right after that base. */
  lemma LayerBelow(x: map<string, Json>, base: seq<map<string, Json>>, L: seq<map<string, Json>>)
    requires |base| <= 1
    ensures FirstWins([x + FirstWins(base)] + L) == FirstWins(base + ([x] + L))
  {
    if base == [] {
      LayerBelowNothing(x, L);
    } else {
      var b := base[0];
      assert base == [b];
      assert FirstWins(base) == b by {
        assert base[1..] == [];
      }
      assert base + ([x] + L) == [b, x] + L;
      FirstWinsCons(x, b, L);
    }
  }

  lemma LayerBelowNothing(x: map<string, Json>, L: seq<map<string, Json>>)
    ensures FirstWins([x + FirstWins([])] + L) == FirstWins([] + ([x] + L))
  {
    assert x + FirstWins([]) == x;
    assert [] + ([x] + L) == [x] + L;
  }

  /** Merging one fragment's table moves it from the layer list into the
      document's own table, below what the document already had. */
  lemma MergeGlobalsLayer(frag: Fragment, conf: Conf, L: seq<map<string, Json>>)
    requires GlobalValues in frag
    ensures var x := TableOf(frag[GlobalValues]);
      FirstWins(BaseLayer(MergeGlobals(frag, conf)) + L) == FirstWins(BaseLayer(conf) + ([x] + L))
    ensures var x := TableOf(frag[GlobalValues]);
      MergeGlobals(frag, conf).items[GlobalValues] == Raw(FirstWins(BaseLayer(conf) + [x]))
  {
    var x := TableOf(frag[GlobalValues]);
    var y := x + FirstWins(BaseLayer(conf));
    MergeGlobalsBase(frag, conf);
    LayerBelow(x, BaseLayer(conf), L);
    LayerBelow(x, BaseLayer(conf), []);
    assert FirstWins([y]) == FirstWins([]) + y;
    assert [x] + [] == [x];
  }

  /** The outcome of `load_includes` when every file is found: the entries
      imported, in import order, with the values of the fragments they were
      requested from, and the document's own entries other than
      `global_values` untouched. */
  lemma LoadIncludesContents(doc: Document, fragments: map<string, Fragment>)
    requires doc.includes.Some?
    ensures var inc := doc.includes.value;
      LoadIncludes(doc, fragments).Success? <==>
        AllFound(inc.keys, inc, fragments) && Distinct(Requested(inc.keys, inc, fragments))
    ensures var inc := doc.includes.value;
      LoadIncludes(doc, fragments).Success? ==>
        var (ret, conf) := LoadIncludes(doc, fragments).value;
        ret.keys == Requested(inc.keys, inc, fragments) &&
        (forall f | f in inc.items && Used(f, fragments) :: forall n | n in inc.items[f] ::
           n in fragments[f] && n in ret.items && ret.items[n] == fragments[f][n]) &&
        (forall k | k != GlobalValues :: (k in conf.items <==> k in doc.conf.items) &&
           (k in doc.conf.items ==> conf.items[k] == doc.conf.items[k]))
  {
    var inc := doc.includes.value;
    DictKeys(inc);
    var e: Dict<Descriptor> := Empty();
    LoadFilesSucceeds(inc.keys, inc, fragments, e, doc.conf);
    assert e.keys + Requested(inc.keys, inc, fragments) == Requested(inc.keys, inc, fragments);
    if LoadIncludes(doc, fragments).Success? {
      LoadFilesEntries(inc.keys, inc, fragments, e, doc.conf);
      forall k | k != GlobalValues
        ensures var conf := LoadIncludes(doc, fragments).value.1;
          (k in conf.items <==> k in doc.conf.items) && (k in doc.conf.items ==> conf.items[k] == doc.conf.items[k])
      {
        LoadFilesKeepsEntries(inc.keys, inc, fragments, e, doc.conf, k);
      }
    }
  }

  /** The `global_values` table `load_includes` leaves: the document's own
      table layered over the tables of the used fragments, in file order;
      without a fragment table the document comes back unchanged. */
  lemma LoadIncludesGlobals(doc: Document, fragments: map<string, Fragment>)
    requires doc.includes.Some? && LoadIncludes(doc, fragments).Success?
    ensures var inc := doc.includes.value;
      var conf := LoadIncludes(doc, fragments).value.1;
      if Layers(inc.keys, fragments) == [] then conf == doc.conf
      else (GlobalValues in conf.items &&
            conf.items[GlobalValues] == Raw(FirstWins(BaseLayer(doc.conf) + Layers(inc.keys, fragments))))
  {
    var inc := doc.includes.value;
    DictKeys(inc);
    LoadFilesGlobals(inc.keys, inc, fragments, Empty(), doc.conf);
  }

  // ---------------------------------------------------------------------
  // create_application, up to the document handed to the assembler.
  // ---------------------------------------------------------------------

  /** Command-line overrides: applied over an existing `global_values`
      table, dropped when the document has none. */
  function ApplyOverrides(conf: Conf, overrides: Option<map<string, Json>>): (r: Conf)
    ensures r.keys == conf.keys
    ensures forall k | k in conf.items && k != GlobalValues :: r.items[k] == conf.items[k]
    ensures overrides.Some? && GlobalValues in conf.items && conf.items[GlobalValues].Raw? ==>
      r.items[GlobalValues].Raw? &&
      (forall x | x in overrides.value :: x in r.items[GlobalValues].fields && r.items[GlobalValues].fields[x] == overrides.value[x]) &&
      (forall x | x in conf.items[GlobalValues].fields && x !in overrides.value ::
         x in r.items[GlobalValues].fields && r.items[GlobalValues].fields[x] == conf.items[GlobalValues].fields[x]) &&
      (forall x | x in r.items[GlobalValues].fields :: x in overrides.value || x in conf.items[GlobalValues].fields)
    ensures overrides.None? || GlobalValues !in conf.items ==> r == conf
  {
    DictKeys(conf);
    if overrides.Some? && GlobalValues in conf.items then
      match conf.items[GlobalValues]
      case Raw(f) => Put(conf, GlobalValues, Raw(f + overrides.value))
      case Obj(_, _, _, _, _, _, _) => conf
    else conf
  }

  /** The document `create_application` hands to the assembler: the
      includes loaded, the imported entries appended after the document's
      own (a name in both is an error), then the overrides applied. */
  function CreateApplication(doc: Document, fragments: map<string, Fragment>, overrides: Option<map<string, Json>>)
    : (r: Result<Conf, LoadError>)
    ensures LoadIncludes(doc, fragments).Failure? ==> r == Failure(LoadIncludes(doc, fragments).error)
    ensures LoadIncludes(doc, fragments).Success? ==>
      var (ret, conf) := LoadIncludes(doc, fragments).value;
      (r.Failure? <==> conf.items.Keys * ret.items.Keys != {}) &&
      (r.Failure? ==> r.error == Collision(conf.items.Keys * ret.items.Keys)) &&
      (r.Success? ==> (r.value.keys == conf.keys + ret.keys &&
                       (forall k | k in ret.items && k != GlobalValues :: r.value.items[k] == ret.items[k]) &&
                       forall k | k in conf.items && k != GlobalValues :: r.value.items[k] == conf.items[k]))
  {
    match LoadIncludes(doc, fragments)
    case Failure(e) => Failure(e)
    case Success((ret, conf)) =>
      if !(conf.items.Keys !! ret.items.Keys) then
        assert (conf.items.Keys * ret.items.Keys) != {} by {
          var k :| k in conf.items.Keys && k in ret.items.Keys;
          assert k in conf.items.Keys * ret.items.Keys;
        }
        Failure(Collision(conf.items.Keys * ret.items.Keys))
      else
        assert conf.items.Keys * ret.items.Keys == {};
        var merged := Extend(conf, ret);
        assert GlobalValues in ret.items ==> GlobalValues !in conf.items;
        var r := ApplyOverrides(merged, overrides);
        Success(r)
  }

  /** A document without an `includes` directive and without overrides is
      handed on exactly as written. */
  lemma PlainDocumentUnchanged(doc: Document, fragments: map<string, Fragment>)
    requires doc.includes.None?
    ensures CreateApplication(doc, fragments, None) == Success(doc.conf)
  {
    var e: Dict<Descriptor> := Empty();
    assert doc.conf.keys + e.keys == doc.conf.keys;
    assert doc.conf.items + e.items == doc.conf.items;
  }

  /** Overrides reach the assembler exactly when the document ends up with
      a `global_values` table: they then win over every layered value. */
  lemma OverridesWin(doc: Document, fragments: map<string, Fragment>, overrides: map<string, Json>, x: string)
    requires CreateApplication(doc, fragments, Some(overrides)).Success?
    requires x in overrides
    ensures var c := CreateApplication(doc, fragments, Some(overrides)).value;
      GlobalValues in c.items && c.items[GlobalValues].Raw? ==> c.items[GlobalValues].fields[x] == overrides[x]
    ensures GlobalValues !in CreateApplication(doc, fragments, None).value.items ==>
      CreateApplication(doc, fragments, Some(overrides)) == CreateApplication(doc, fragments, None)
  {
  }
}
