/**
 * The constraint builder: resolving a resource id against the configuration
 * tree (stepping out of clone and master wrappers), checking a constraint's
 * options and supplying its id, building deterministic ids, detecting
 * duplicate constraints with resource sets, and appending a new constraint
 * to the constraints section.
 *
 * Failures the source raises as library errors are `Failure` results. The
 * helpers of the resource-set module and `find_unique_id` are not part of
 * this model: they are parameters, and where the source relies on what they
 * guarantee, a `requires` says so.
 */
module Constraint {
  import opened Wrappers
  import opened Strings
  import opened Validate

  /** An element of the configuration tree: its tag, its attributes in order, its children in order. */
  datatype Element = Element(tag: string, attrib: Options, children: seq<Element>)

  /** What a resource set exports: its resource ids in order and its own attributes. */
  datatype SetExport = SetExport(ids: seq<string>, options: Options)

  /** The exported form of a constraint; `resourceSets` is absent for a constraint without sets. */
  datatype Export = Export(resourceSets: Option<seq<SetExport>>, attrib: Options)

  datatype Failure =
    | ResourceDoesNotExist(id: string)
    | ResourceIsInClone(resourceId: string, cloneId: string)
    | ResourceIsInMaster(resourceId: string, masterId: string)
    | InvalidOption(allowed: seq<string>, name: string)
    | InvalidId(id: string)
    | DuplicitConstraintsExist(tag: string, duplicates: seq<Export>)

  /** The tags of the wrappers that make a resource a clone. */
  const CloneTags: seq<string> := ["clone", "master"]

  const ResourceSetTag: string := "resource_set"

  function IdOf(e: Element): string {
    GetOr(e.attrib, "id", "")
  }

  predicate HasId(e: Element, id: string) {
    Get(e.attrib, "id") == Some(id)
  }

  // ---------------------------------------------------------------------
  // The tree
  // ---------------------------------------------------------------------

  /** Some element of the tree rooted at `e` carries `id`. */
  predicate Occurs(e: Element, id: string)
    decreases e
  {
    HasId(e, id) || exists c :: c in e.children && Occurs(c, id)
  }

  /** Every element of `p` is a child of the one before it. */
  predicate IsPath(p: seq<Element>) {
    forall k :: 0 <= k < |p| - 1 ==> p[k + 1] in p[k].children
  }

  /**
   * Finding an element by id: the path from `e` down to the first element in
   * document order that carries `id`, or None.
   */
  function FindPath(e: Element, id: string): (p: Option<seq<Element>>)
    decreases e
    ensures p.Some? ==> |p.value| > 0 && p.value[0] == e && HasId(p.value[|p.value| - 1], id)
  {
    if HasId(e, id) then Some([e]) else FindPathFrom(e, 0, id)
  }

  /** The path to the first element carrying `id` below the children of `e` from the `i`-th on. */
  function FindPathFrom(e: Element, i: nat, id: string): (p: Option<seq<Element>>)
    decreases e, |e.children| - i
    ensures p.Some? ==> |p.value| > 1 && p.value[0] == e && HasId(p.value[|p.value| - 1], id)
  {
    if i >= |e.children| then None
    else match FindPath(e.children[i], id)
      case Some(p) => Some([e] + p)
      case None => FindPathFrom(e, i + 1, id)
  }

  /** A found path runs from the root down through children. */
  lemma {:induction false} FindPathIsPath(e: Element, id: string)
    decreases e, |e.children| + 1
    ensures FindPath(e, id).Some? ==> IsPath(FindPath(e, id).value)
  {
    if !HasId(e, id) {
      FindPathFromIsPath(e, 0, id);
    }
  }

  lemma {:induction false} FindPathFromIsPath(e: Element, i: nat, id: string)
    decreases e, |e.children| - i
    ensures FindPathFrom(e, i, id).Some? ==> IsPath(FindPathFrom(e, i, id).value)
  {
    if i < |e.children| {
      var c := e.children[i];
      match FindPath(c, id)
      case Some(p) =>
        FindPathIsPath(c, id);
        var q := [e] + p;
        forall k | 0 <= k < |q| - 1 ensures q[k + 1] in q[k].children {
          if k > 0 {
            assert q[k] == p[k - 1] && q[k + 1] == p[k];
          }
        }
      case None =>
        FindPathFromIsPath(e, i + 1, id);
    }
  }

  /** The lookup misses exactly when no element carries the id. */
  lemma {:induction false} FindPathComplete(e: Element, id: string)
    decreases e, |e.children| + 1
    ensures FindPath(e, id).None? <==> !Occurs(e, id)
  {
    FindPathFromComplete(e, 0, id);
    if !HasId(e, id) && Occurs(e, id) {
      var c :| c in e.children && Occurs(c, id);
      var k :| 0 <= k < |e.children| && e.children[k] == c;
    }
  }

  lemma {:induction false} FindPathFromComplete(e: Element, i: nat, id: string)
    decreases e, |e.children| - i
    ensures FindPathFrom(e, i, id).None? <==> forall k :: i <= k < |e.children| ==> !Occurs(e.children[k], id)
  {
    if i < |e.children| {
      FindPathComplete(e.children[i], id);
      FindPathFromComplete(e, i + 1, id);
    }
  }

  /** The nearest of `ancestors` (the last one, as they run from the root down) whose tag is a clone tag. */
  function NearestClone(ancestors: seq<Element>): (a: Option<Element>)
    ensures a.None? <==> forall k :: 0 <= k < |ancestors| ==> ancestors[k].tag !in CloneTags
    ensures a.Some? ==> a.value.tag in CloneTags && exists k :: 0 <= k < |ancestors| && ancestors[k] == a.value
  {
    if |ancestors| == 0 then None
    else if ancestors[|ancestors| - 1].tag in CloneTags then Some(ancestors[|ancestors| - 1])
    else NearestClone(ancestors[..|ancestors| - 1])
  }

  // ---------------------------------------------------------------------
  // Resolving resource ids
  // ---------------------------------------------------------------------

  /**
   * The id a constraint should refer to for resource `id`: the id itself,
   * or the enclosing clone's when the caller allows that repair; a resource
   * inside a clone or master is refused unless the caller allows it.
   */
  function FindValidResourceId(root: Element, canRepairToClone: bool, inCloneAllowed: bool, id: string): (r: Result<string, Failure>)
    ensures r.Failure? ==> (r.error == ResourceDoesNotExist(id) ||
      (!canRepairToClone && !inCloneAllowed &&
       (r.error.ResourceIsInClone? || r.error.ResourceIsInMaster?) && r.error.resourceId == id))
  {
    match FindPath(root, id)
    case None => Failure(ResourceDoesNotExist(id))
    case Some(path) => ResolveFound(path, canRepairToClone, inCloneAllowed, id)
  }

  /** The resolution of `id` once found at the end of `path`. */
  function ResolveFound(path: seq<Element>, canRepairToClone: bool, inCloneAllowed: bool, id: string): (r: Result<string, Failure>)
    requires |path| > 0
    ensures r.Failure? ==> (!canRepairToClone && !inCloneAllowed &&
       (r.error.ResourceIsInClone? || r.error.ResourceIsInMaster?) && r.error.resourceId == id)
  {
    if path[|path| - 1].tag in CloneTags then Success(id)
    else match NearestClone(path[..|path| - 1])
      case None => Success(id)
      case Some(clone) =>
        if canRepairToClone then Success(IdOf(clone))
        else if inCloneAllowed then Success(id)
        else if clone.tag == "master" then Failure(ResourceIsInMaster(id, IdOf(clone)))
        else Failure(ResourceIsInClone(id, IdOf(clone)))
  }

  /** Resolution fails with "does not exist" exactly when no element of the tree carries the id. */
  lemma ResolveMissing(root: Element, canRepairToClone: bool, inCloneAllowed: bool, id: string)
    ensures FindValidResourceId(root, canRepairToClone, inCloneAllowed, id) == Failure(ResourceDoesNotExist(id)) <==> !Occurs(root, id)
  {
    FindPathComplete(root, id);
  }

  /** A found clone or master, or a resource outside any clone, resolves to itself whatever the flags. */
  lemma ResolveUnchanged(root: Element, canRepairToClone: bool, inCloneAllowed: bool, id: string, path: seq<Element>)
    requires FindPath(root, id) == Some(path)
    requires path[|path| - 1].tag in CloneTags || forall k :: 0 <= k < |path| - 1 ==> path[k].tag !in CloneTags
    ensures FindValidResourceId(root, canRepairToClone, inCloneAllowed, id) == Success(id)
  {
    if path[|path| - 1].tag !in CloneTags {
      assert NearestClone(path[..|path| - 1]).None?;
    }
  }

  /** The nearest clone of the ancestors is the last one with a clone tag. */
  lemma {:induction false} NearestCloneIs(ancestors: seq<Element>, k: nat)
    requires k < |ancestors| && ancestors[k].tag in CloneTags
    requires forall j :: k < j < |ancestors| ==> ancestors[j].tag !in CloneTags
    ensures NearestClone(ancestors) == Some(ancestors[k])
  {
    if k < |ancestors| - 1 {
      var init := ancestors[..|ancestors| - 1];
      assert init[k] == ancestors[k];
      NearestCloneIs(init, k);
    }
  }

  /**
   * Inside a clone: repaired to the clone's id, else kept when allowed, else
   * refused naming both ids, as a master or a clone by the wrapper's tag.
   */
  lemma ResolveInClone(root: Element, canRepairToClone: bool, inCloneAllowed: bool, id: string, path: seq<Element>, k: nat)
    requires FindPath(root, id) == Some(path)
    requires path[|path| - 1].tag !in CloneTags && k < |path| - 1 && path[k].tag in CloneTags
    requires forall j :: k < j < |path| - 1 ==> path[j].tag !in CloneTags
    ensures FindValidResourceId(root, canRepairToClone, inCloneAllowed, id) ==
        if canRepairToClone then Success(IdOf(path[k]))
        else if inCloneAllowed then Success(id)
        else if path[k].tag == "master" then Failure(ResourceIsInMaster(id, IdOf(path[k])))
        else Failure(ResourceIsInClone(id, IdOf(path[k])))
  {
    ResolveFoundInClone(path, canRepairToClone, inCloneAllowed, id, k);
  }

  lemma ResolveFoundInClone(p: seq<Element>, canRepairToClone: bool, inCloneAllowed: bool, id: string, k: nat)
    requires |p| > 0 && p[|p| - 1].tag !in CloneTags && k < |p| - 1 && p[k].tag in CloneTags
    requires forall j :: k < j < |p| - 1 ==> p[j].tag !in CloneTags
    ensures ResolveFound(p, canRepairToClone, inCloneAllowed, id) ==
        if canRepairToClone then Success(IdOf(p[k]))
        else if inCloneAllowed then Success(id)
        else if p[k].tag == "master" then Failure(ResourceIsInMaster(id, IdOf(p[k])))
        else Failure(ResourceIsInClone(id, IdOf(p[k])))
  {
    var ancestors := p[..|p| - 1];
    assert ancestors[k] == p[k];
    assert forall j :: k < j < |ancestors| ==> ancestors[j] == p[j];
    NearestCloneIs(ancestors, k);
  }

  /** The example of a resource R inside the clone C-clone, under each choice of flags. */
  lemma ResolveExample()
    ensures var root := Element("clone", [("id", "C-clone")], [Element("primitive", [("id", "R")], [])]);
      FindValidResourceId(root, true, false, "R") == Success("C-clone") &&
      FindValidResourceId(root, false, true, "R") == Success("R") &&
      FindValidResourceId(root, false, false, "R") == Failure(ResourceIsInClone("R", "C-clone"))
  {
    var r := Element("primitive", [("id", "R")], []);
    var root := Element("clone", [("id", "C-clone")], [r]);
    assert Get(root.attrib, "id") == Some("C-clone");
    assert !HasId(root, "R") by {
      assert "C-clone" != "R" by { assert "C-clone"[0] != "R"[0]; }
    }
    assert FindPath(r, "R") == Some([r]);
    assert root.children[0] == r && [root] + [r] == [root, r];
    assert FindPathFrom(root, 1, "R") == None;
    assert FindPathFrom(root, 0, "R") == Some([root, r]);
    assert FindPath(root, "R") == Some([root, r]);
    assert "primitive" !in CloneTags by {
      assert "primitive"[0] != "clone"[0] && "primitive"[0] != "master"[0];
    }
    assert [root, r][..1] == [root];
    assert NearestClone([root]) == Some(root);
    assert "clone" != "master" by { assert "clone"[0] != "master"[0]; }
  }

  /** A request's resource set: its resource ids in order and its own options. */
  datatype ResourceSetSpec = ResourceSetSpec(ids: seq<string>, options: Options)

  /** Resolving every id of a set with `resolve`, in order; the first id that fails aborts. */
  function ResolveIds(resolve: string -> Result<string, Failure>, ids: seq<string>): Result<seq<string>, Failure> {
    if |ids| == 0 then Success([])
    else match resolve(ids[0])
      case Failure(e) => Failure(e)
      case Success(first) =>
        match ResolveIds(resolve, ids[1..])
        case Failure(e) => Failure(e)
        case Success(rest) => Success([first] + rest)
  }

  /** Resolving succeeds exactly when every id resolves, giving each id's resolution in order. */
  lemma {:induction false} ResolveIdsSuccess(resolve: string -> Result<string, Failure>, ids: seq<string>)
    ensures var r := ResolveIds(resolve, ids);
      (r.Success? <==> forall j :: 0 <= j < |ids| ==> resolve(ids[j]).Success?) &&
      (r.Success? ==> (|r.value| == |ids| && forall j :: 0 <= j < |ids| ==> resolve(ids[j]) == Success(r.value[j])))
  {
    if |ids| > 0 {
      var rest := ResolveIds(resolve, ids[1..]);
      var r := ResolveIds(resolve, ids);
      ResolveIdsSuccess(resolve, ids[1..]);
      forall j | 1 <= j < |ids| ensures ids[j] == ids[1..][j - 1] {}
      if r.Success? {
        forall j | 0 <= j < |ids| ensures resolve(ids[j]) == Success(r.value[j]) {
          if j > 0 { assert r.value[j] == rest.value[j - 1]; }
        }
      }
    }
  }

  /** A failure is the failure of the first id that does not resolve. */
  lemma {:induction false} ResolveIdsFailure(resolve: string -> Result<string, Failure>, ids: seq<string>)
    ensures var r := ResolveIds(resolve, ids);
      r.Failure? ==> exists j :: (0 <= j < |ids| && resolve(ids[j]) == Failure(r.error) &&
        forall i :: 0 <= i < j ==> resolve(ids[i]).Success?)
  {
    var r := ResolveIds(resolve, ids);
    if |ids| > 0 && r.Failure? && resolve(ids[0]).Success? {
      var rest := ResolveIds(resolve, ids[1..]);
      ResolveIdsFailure(resolve, ids[1..]);
      var j :| 0 <= j < |ids[1..]| && resolve(ids[1..][j]) == Failure(rest.error) &&
        forall i :: 0 <= i < j ==> resolve(ids[1..][i]).Success?;
      assert resolve(ids[j + 1]) == Failure(r.error);
      forall i | 0 <= i < j + 1 ensures resolve(ids[i]).Success? {
        if i > 0 { assert ids[i] == ids[1..][i - 1]; }
      }
    }
  }

  /** A set with every id resolved by `resolve`, keeping its options. */
  function PrepareSet(resolve: string -> Result<string, Failure>, rset: ResourceSetSpec): Result<ResourceSetSpec, Failure> {
    match ResolveIds(resolve, rset.ids)
    case Failure(e) => Failure(e)
    case Success(ids) => Success(ResourceSetSpec(ids, rset.options))
  }

  function PrepareSets(resolve: string -> Result<string, Failure>, sets: seq<ResourceSetSpec>): Result<seq<ResourceSetSpec>, Failure> {
    if |sets| == 0 then Success([])
    else match PrepareSet(resolve, sets[0])
      case Failure(e) => Failure(e)
      case Success(first) =>
        match PrepareSets(resolve, sets[1..])
        case Failure(e) => Failure(e)
        case Success(rest) => Success([first] + rest)
  }

  /**
   * Every resource reference of every set resolved by the resolver above
   * with the caller's flags; the first reference that fails aborts the list.
   */
  function PrepareResourceSetList(root: Element, canRepairToClone: bool, inCloneAllowed: bool, sets: seq<ResourceSetSpec>): Result<seq<ResourceSetSpec>, Failure> {
    PrepareSets(id => FindValidResourceId(root, canRepairToClone, inCloneAllowed, id), sets)
  }

  /**
   * The prepared list has one set per requested set, in order, each with its
   * options and with every id resolved; it fails only as some set does.
   */
  lemma {:induction false} PrepareSetsMeaning(resolve: string -> Result<string, Failure>, sets: seq<ResourceSetSpec>)
    ensures var r := PrepareSets(resolve, sets);
      (r.Success? <==> forall k :: 0 <= k < |sets| ==> ResolveIds(resolve, sets[k].ids).Success?) &&
      (r.Success? ==> (|r.value| == |sets| &&
        forall k :: 0 <= k < |sets| ==> (r.value[k].options == sets[k].options &&
          ResolveIds(resolve, sets[k].ids) == Success(r.value[k].ids)))) &&
      (r.Failure? ==> exists k :: 0 <= k < |sets| && ResolveIds(resolve, sets[k].ids) == Failure(r.error))
  {
    if |sets| > 0 {
      PrepareSetsMeaning(resolve, sets[1..]);
      var r := PrepareSets(resolve, sets);
      var first := ResolveIds(resolve, sets[0].ids);
      var rest := PrepareSets(resolve, sets[1..]);
      forall k | 1 <= k < |sets| ensures sets[k] == sets[1..][k - 1] {}
      if first.Success? && rest.Success? {
        forall k | 0 <= k < |sets|
          ensures r.value[k].options == sets[k].options && ResolveIds(resolve, sets[k].ids) == Success(r.value[k].ids)
        {
          if k > 0 {
            assert r.value[k] == rest.value[k - 1];
          }
        }
      } else if first.Success? {
        var k :| 0 <= k < |sets[1..]| && ResolveIds(resolve, sets[1..][k].ids) == Failure(rest.error);
        assert ResolveIds(resolve, sets[k + 1].ids) == Failure(r.error);
      }
    }
  }

  // ---------------------------------------------------------------------
  // Constraint options
  // ---------------------------------------------------------------------

  /** The first of `names` that is not allowed, if any. */
  function FirstNotAllowed(names: seq<string>, allowed: seq<string>): (r: Option<string>)
    ensures r.None? <==> forall k :: 0 <= k < |names| ==> names[k] in allowed
    ensures r.Some? ==> exists k :: (0 <= k < |names| && names[k] == r.value && r.value !in allowed &&
      forall j :: 0 <= j < k ==> names[j] in allowed)
  {
    if |names| == 0 then None
    else if names[0] !in allowed then Some(names[0])
    else
      var rest := FirstNotAllowed(names[1..], allowed);
      assert rest.Some? ==> exists k :: (1 <= k < |names| && names[k] == rest.value && rest.value !in allowed &&
        forall j :: 0 <= j < k ==> names[j] in allowed) by {
        if rest.Some? {
          var k :| 0 <= k < |names[1..]| && names[1..][k] == rest.value && rest.value !in allowed &&
            forall j :: 0 <= j < k ==> names[1..][j] in allowed;
          assert names[k + 1] == rest.value;
          forall j | 0 <= j < k + 1 ensures names[j] in allowed {
            if j > 0 { assert names[j] == names[1..][j - 1]; }
          }
        }
      }
      rest
  }

  /** Fails on the first option whose name is not allowed, naming the allowed names. */
  method ValidateAttribNames(allowed: seq<string>, options: Options) returns (r: Option<Failure>)
    ensures r == if FirstNotAllowed(Keys(options), allowed).Some? then Some(InvalidOption(allowed, FirstNotAllowed(Keys(options), allowed).value)) else None
  {
    var names := Keys(options);
    var i := 0;
    while i < |names|
      invariant 0 <= i <= |names|
      invariant FirstNotAllowed(names, allowed) == FirstNotAllowed(names[i..], allowed)
    {
      if names[i] !in allowed {
        return Some(InvalidOption(allowed, names[i]));
      }
      assert names[i..][1..] == names[i + 1..];
      i := i + 1;
    }
    return None;
  }

  /**
   * The options of a new constraint: every name must be allowed or "id"; an
   * absent id is the created one, a given id must pass `validateId`.
   */
  function PreparedOptions(attribNames: seq<string>, options: Options, createdId: string, validateId: string -> Option<Failure>): Result<Options, Failure> {
    var allowed := attribNames + ["id"];
    var bad := FirstNotAllowed(Keys(options), allowed);
    if bad.Some? then Failure(InvalidOption(allowed, bad.value))
    else if Get(options, "id").None? then Success(options + [("id", createdId)])
    else if validateId(Get(options, "id").value).Some? then Failure(validateId(Get(options, "id").value).value)
    else Success(options)
  }

  /**
   * Copies the options and sets the id on the copy. Options are values here,
   * so the caller's map is left as it was.
   */
  method PrepareOptions(attribNames: seq<string>, options: Options, createdId: string, validateId: string -> Option<Failure>)
    returns (r: Result<Options, Failure>)
    ensures r == PreparedOptions(attribNames, options, createdId, validateId)
  {
    var invalid := ValidateAttribNames(attribNames + ["id"], options);
    if invalid.Some? {
      return Failure(invalid.value);
    }
    var prepared := options;
    if Get(prepared, "id").None? {
      prepared := prepared + [("id", createdId)];
    } else {
      var idError := validateId(Get(prepared, "id").value);
      if idError.Some? {
        return Failure(idError.value);
      }
    }
    return Success(prepared);
  }

  lemma {:induction false} GetAppendOther(o: Options, p: (string, string), name: string)
    requires name != p.0
    ensures Get(o + [p], name) == Get(o, name)
  {
    if |o| > 0 {
      assert (o + [p])[1..] == o[1..] + [p];
      GetAppendOther(o[1..], p, name);
    } else {
      assert Get([p][1..], name) == None;
    }
  }

  lemma {:induction false} GetAppendNew(o: Options, p: (string, string))
    requires Get(o, p.0).None?
    ensures Get(o + [p], p.0) == Some(p.1)
  {
    if |o| > 0 {
      assert (o + [p])[1..] == o[1..] + [p];
      GetAppendNew(o[1..], p);
    }
  }

  /**
   * Preparing fails exactly on a name outside the allowed names and "id" or
   * on a rejected given id; otherwise every given option is kept and the id
   * is the given one, or the created one added after them.
   */
  lemma PreparedOptionsMeaning(attribNames: seq<string>, options: Options, createdId: string, validateId: string -> Option<Failure>)
    ensures var r := PreparedOptions(attribNames, options, createdId, validateId);
      var given := Get(options, "id");
      (r.Success? <==> (forall k :: 0 <= k < |options| ==> options[k].0 in attribNames || options[k].0 == "id") &&
                       (given.None? || validateId(given.value).None?)) &&
      (r.Success? ==> Keys(r.value) == Keys(options) + (if given.None? then ["id"] else []) &&
                      Get(r.value, "id") == Some(if given.None? then createdId else given.value) &&
                      forall n :: n != "id" ==> Get(r.value, n) == Get(options, n))
  {
    var r := PreparedOptions(attribNames, options, createdId, validateId);
    var allowed := attribNames + ["id"];
    forall k | 0 <= k < |options| ensures Keys(options)[k] in allowed <==> options[k].0 in attribNames || options[k].0 == "id" {
    }
    if r.Success? && Get(options, "id").None? {
      KeysSnoc(options, ("id", createdId));
      GetAppendNew(options, ("id", createdId));
      forall n | n != "id" ensures Get(r.value, n) == Get(options, n) {
        GetAppendOther(options, ("id", createdId), n);
      }
    }
  }

  // ---------------------------------------------------------------------
  // Constraint ids
  // ---------------------------------------------------------------------

  /** The proposed id: "pcs_" and the prefix, then "_set_" and the set's ids joined by "_" for each set in order. */
  function ProposedId(prefix: string, idSets: seq<seq<string>>): string {
    if |idSets| == 0 then "pcs_" + prefix
    else ProposedId(prefix, idSets[..|idSets| - 1]) + "_set_" + Join("_", idSets[|idSets| - 1])
  }

  /** The id of a new constraint: the proposal made unique by `findUniqueId`, which never returns a used id. */
  function CreateId(used: set<string>, findUniqueId: string -> string, prefix: string, idSets: seq<seq<string>>): (id: string)
    requires forall proposed :: findUniqueId(proposed) !in used
    ensures id !in used
  {
    findUniqueId(ProposedId(prefix, idSets))
  }

  /** Every proposal starts with "pcs_" and the prefix, and each further set extends it. */
  lemma {:induction false} ProposedIdPrefix(prefix: string, idSets: seq<seq<string>>)
    ensures StartsWith(ProposedId(prefix, idSets), "pcs_" + prefix)
    ensures forall n :: 0 <= n <= |idSets| ==> StartsWith(ProposedId(prefix, idSets), ProposedId(prefix, idSets[..n]))
  {
    if |idSets| > 0 {
      var init := idSets[..|idSets| - 1];
      ProposedIdPrefix(prefix, init);
      var whole := ProposedId(prefix, idSets);
      var part := ProposedId(prefix, init);
      assert whole[..|part|] == part;
      forall n | 0 <= n <= |idSets| ensures StartsWith(whole, ProposedId(prefix, idSets[..n])) {
        if n < |idSets| {
          assert idSets[..n] == init[..n];
          var p := ProposedId(prefix, init[..n]);
          assert whole[..|p|] == part[..|p|];
        } else {
          assert idSets[..n] == idSets;
        }
      }
    }
  }

  /** The id proposed for a colocation of A with B, then C. */
  lemma ProposedIdExample()
    ensures ProposedId("colocation", [["A", "B"], ["C"]]) == "pcs_colocation_set_A_B_set_C"
  {
    var sets := [["A", "B"], ["C"]];
    assert sets[..1] == [["A", "B"]];
    assert sets[..1][..0] == [];
    assert Join("_", ["A", "B"]) == "A_B" by {
      assert ["A", "B"][..1] == ["A"];
    }
  }

  // ---------------------------------------------------------------------
  // Duplicate constraints
  // ---------------------------------------------------------------------

  /** The descendants of `e` (not `e` itself) that have tag `tag`, in document order. */
  function Descendants(e: Element, tag: string): seq<Element>
    decreases e, |e.children| + 1
  {
    DescendantsFrom(e, 0, tag)
  }

  /** The descendants with tag `tag` of the children of `e` from the `i`-th on. */
  function DescendantsFrom(e: Element, i: nat, tag: string): seq<Element>
    decreases e, |e.children| - i
  {
    if i >= |e.children| then []
    else (if e.children[i].tag == tag then [e.children[i]] else []) + Descendants(e.children[i], tag) + DescendantsFrom(e, i + 1, tag)
  }

  /** Only elements carrying the tag are collected. */
  lemma {:induction false} DescendantsTagged(e: Element, tag: string)
    ensures forall x :: x in Descendants(e, tag) ==> x.tag == tag
    decreases e, |e.children| + 1
  {
    DescendantsFromTagged(e, 0, tag);
  }

  lemma {:induction false} DescendantsFromTagged(e: Element, i: nat, tag: string)
    ensures forall x :: x in DescendantsFrom(e, i, tag) ==> x.tag == tag
    decreases e, |e.children| - i
  {
    if i < |e.children| {
      DescendantsTagged(e.children[i], tag);
      DescendantsFromTagged(e, i + 1, tag);
    }
  }

  /** The ordered resource-id lists of a constraint's resource sets, in document order. */
  function IdSetList(e: Element, idsOf: Element -> seq<string>): (r: seq<seq<string>>)
    ensures |r| == |Descendants(e, ResourceSetTag)|
  {
    var sets := Descendants(e, ResourceSetTag);
    seq(|sets|, k requires 0 <= k < |sets| => idsOf(sets[k]))
  }

  /** Two constraints are duplicates when their ordered lists of ordered id lists are equal. */
  predicate HaveDuplicitResourceSets(e: Element, other: Element, idsOf: Element -> seq<string>) {
    IdSetList(e, idsOf) == IdSetList(other, idsOf)
  }

  /** Order matters on both levels: the same ids in another order are not a duplicate. */
  lemma DuplicitIsOrdered(e: Element, other: Element, idsOf: Element -> seq<string>)
    requires IdSetList(e, idsOf) == [["A", "B"]] && IdSetList(other, idsOf) == [["B", "A"]]
    ensures !HaveDuplicitResourceSets(e, other, idsOf)
  {
    assert IdSetList(e, idsOf)[0][0] != IdSetList(other, idsOf)[0][0];
  }

  /**
   * The positions of the constraints with the same tag as the one at `self`
   * that `areDuplicit` relates it to, in document order, among the first `n`.
   */
  function DuplicitIndices(constraints: seq<Element>, self: nat, areDuplicit: (Element, Element) -> bool, n: nat): (r: seq<nat>)
    requires self < |constraints| && n <= |constraints|
    ensures forall k :: k in r <==>
      0 <= k < n && k != self && constraints[k].tag == constraints[self].tag && areDuplicit(constraints[self], constraints[k])
    ensures forall i, j :: 0 <= i < j < |r| ==> r[i] < r[j]
    ensures forall i :: 0 <= i < |r| ==> r[i] < n
  {
    if n == 0 then []
    else
      var k := n - 1;
      DuplicitIndices(constraints, self, areDuplicit, k) +
        (if k != self && constraints[k].tag == constraints[self].tag && areDuplicit(constraints[self], constraints[k]) then [k] else [])
  }

  /**
   * The duplicate check of the constraint at `self`: fails listing the export
   * of every other constraint of its tag that is a duplicate, in document order.
   */
  function CheckIsWithoutDuplication(constraints: seq<Element>, self: nat, areDuplicit: (Element, Element) -> bool, exportElement: Element -> Export): (r: Option<Failure>)
    requires self < |constraints|
    ensures r.None? <==> forall k :: 0 <= k < |constraints| && k != self && constraints[k].tag == constraints[self].tag ==>
      !areDuplicit(constraints[self], constraints[k])
    ensures r.Some? ==> r.value.DuplicitConstraintsExist? && r.value.tag == constraints[self].tag
  {
    var found := DuplicitIndices(constraints, self, areDuplicit, |constraints|);
    if |found| == 0 then
      assert forall k :: 0 <= k < |constraints| && k != self && constraints[k].tag == constraints[self].tag ==>
        !areDuplicit(constraints[self], constraints[k]) by {
        forall k | 0 <= k < |constraints| && k != self && constraints[k].tag == constraints[self].tag
          ensures !areDuplicit(constraints[self], constraints[k]) {
          assert k !in found;
        }
      }
      None
    else
      assert found[0] in found;
      Some(DuplicitConstraintsExist(constraints[self].tag, seq(|found|, i requires 0 <= i < |found| => exportElement(constraints[found[i]]))))
  }

  /**
   * The report lists exactly the other duplicates, once each: the exported
   * form of the `i`-th duplicate in document order is entry `i`, and the
   * constraint itself is never among them.
   */
  lemma DuplicationReportLists(constraints: seq<Element>, self: nat, areDuplicit: (Element, Element) -> bool, exportElement: Element -> Export)
    requires self < |constraints|
    ensures var r := CheckIsWithoutDuplication(constraints, self, areDuplicit, exportElement);
      var found := DuplicitIndices(constraints, self, areDuplicit, |constraints|);
      self !in found &&
      (r.Some? ==> (|r.value.duplicates| == |found| &&
        forall i :: 0 <= i < |found| ==> r.value.duplicates[i] == exportElement(constraints[found[i]])))
  {
  }

  // ---------------------------------------------------------------------
  // Exporting and creating constraints
  // ---------------------------------------------------------------------

  function ExportPlain(e: Element): (r: Export)
    ensures r.resourceSets.None? && r.attrib == e.attrib
  {
    Export(None, e.attrib)
  }

  /** The attributes and the export of each resource set below the constraint, in document order. */
  function ExportWithSet(e: Element, exportSet: Element -> SetExport): (r: Export)
    ensures r.resourceSets.Some? && |r.resourceSets.value| == |Descendants(e, ResourceSetTag)| && r.attrib == e.attrib
    ensures forall k :: 0 <= k < |Descendants(e, ResourceSetTag)| ==>
      r.resourceSets.value[k] == exportSet(Descendants(e, ResourceSetTag)[k])
  {
    var sets := Descendants(e, ResourceSetTag);
    Export(Some(seq(|sets|, k requires 0 <= k < |sets| => exportSet(sets[k]))), e.attrib)
  }

  /** The resource-set children built for the requested sets, in order. */
  function SetElements(sets: seq<ResourceSetSpec>, makeSet: ResourceSetSpec -> Element): (r: seq<Element>)
    ensures |r| == |sets| && forall k :: 0 <= k < |sets| ==> r[k] == makeSet(sets[k])
  {
    seq(|sets|, k requires 0 <= k < |sets| => makeSet(sets[k]))
  }

  /** A resource-set element as the set helper builds it: tagged resource_set, with no set nested inside. */
  predicate IsPlainSet(s: Element) {
    s.tag == ResourceSetTag && Descendants(s, ResourceSetTag) == []
  }

  lemma {:induction false} SetDescendantsFrom(e: Element, i: nat)
    requires i <= |e.children|
    requires forall k :: 0 <= k < |e.children| ==> IsPlainSet(e.children[k])
    decreases |e.children| - i
    ensures DescendantsFrom(e, i, ResourceSetTag) == e.children[i..]
  {
    if i < |e.children| {
      SetDescendantsFrom(e, i + 1);
      assert e.children[i..] == [e.children[i]] + e.children[i + 1..];
    }
  }

  /** A constraint whose children are plain resource sets has exactly those children as its resource sets. */
  lemma SetDescendants(e: Element)
    requires forall k :: 0 <= k < |e.children| ==> IsPlainSet(e.children[k])
    ensures Descendants(e, ResourceSetTag) == e.children
  {
    SetDescendantsFrom(e, 0);
  }

  /**
   * Two constraints created from set lists are duplicates exactly when the
   * lists have the same ids in the same order, set by set, given a set
   * helper whose sets give back the ids they were built from.
   */
  lemma CreatedDuplicates(tag: string, options: Options, otherOptions: Options, sets: seq<ResourceSetSpec>, others: seq<ResourceSetSpec>,
                          makeSet: ResourceSetSpec -> Element, idsOf: Element -> seq<string>)
    requires forall k :: 0 <= k < |sets| ==> IsPlainSet(makeSet(sets[k])) && idsOf(makeSet(sets[k])) == sets[k].ids
    requires forall k :: 0 <= k < |others| ==> IsPlainSet(makeSet(others[k])) && idsOf(makeSet(others[k])) == others[k].ids
    ensures HaveDuplicitResourceSets(Element(tag, options, SetElements(sets, makeSet)), Element(tag, otherOptions, SetElements(others, makeSet)), idsOf)
      <==> (|sets| == |others| && forall k :: 0 <= k < |sets| ==> sets[k].ids == others[k].ids)
  {
    var e := Element(tag, options, SetElements(sets, makeSet));
    var f := Element(tag, otherOptions, SetElements(others, makeSet));
    SetDescendants(e);
    SetDescendants(f);
    var a := IdSetList(e, idsOf);
    var b := IdSetList(f, idsOf);
    assert forall k :: 0 <= k < |sets| ==> a[k] == sets[k].ids;
    assert forall k :: 0 <= k < |others| ==> b[k] == others[k].ids;
    if |sets| == |others| && forall k :: 0 <= k < |sets| ==> sets[k].ids == others[k].ids {
      assert a == b;
    }
  }

  /**
   * The constraints section of the configuration: its constraint elements
   * in document order.
   */
  class ConstraintSection {
    var constraints: seq<Element>

    constructor(constraints: seq<Element>)
      ensures this.constraints == constraints
    {
      this.constraints := constraints;
    }

    /**
     * Appends one constraint with the given tag and attributes and one
     * resource set per requested set, in order; nothing else changes.
     */
    method CreateWithSet(tag: string, options: Options, sets: seq<ResourceSetSpec>, makeSet: ResourceSetSpec -> Element)
      returns (index: nat)
      modifies this
      ensures constraints == old(constraints) + [Element(tag, options, SetElements(sets, makeSet))]
      ensures index == |old(constraints)| && constraints[index].tag == tag
    {
      var children: seq<Element> := [];
      for i := 0 to |sets|
        invariant children == SetElements(sets[..i], makeSet)
      {
        children := children + [makeSet(sets[i])];
      }
      assert sets[..|sets|] == sets;
      index := |constraints|;
      constraints := constraints + [Element(tag, options, children)];
    }
  }

  /**
   * A new constraint with plain resource sets exports its attributes and the
   * export of each set in request order.
   */
  lemma CreatedExport(tag: string, options: Options, sets: seq<ResourceSetSpec>, makeSet: ResourceSetSpec -> Element, exportSet: Element -> SetExport)
    requires forall k :: 0 <= k < |sets| ==> IsPlainSet(makeSet(sets[k]))
    ensures var r := ExportWithSet(Element(tag, options, SetElements(sets, makeSet)), exportSet);
      r.attrib == options && |r.resourceSets.value| == |sets| &&
      forall k :: 0 <= k < |sets| ==> r.resourceSets.value[k] == exportSet(makeSet(sets[k]))
  {
    SetDescendants(Element(tag, options, SetElements(sets, makeSet)));
  }
}
