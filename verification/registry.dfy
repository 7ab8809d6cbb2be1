/** The resource registry of C3VOCCalendar: a dictionary from case name to
    the one Gantt resource created for it. Resources are created only for
    names the registry does not know yet, so every occurrence of a case
    across all events shares one resource. */
module Registry {
  import opened Wrappers

  /** A gantt.Resource. Besides the case name it is tagged with, a Python
      resource has an object identity; `serial` stands for it: the resource
      constructed k-th in a run (counting from 0) has serial k. */
  datatype Resource = Resource(name: string, serial: nat)

  type Registry = map<string, Resource>

  /** The registry invariant: every name maps to a resource made for that
      name (so distinct names hold distinct resources), constructed before
      the registry reached its current size. A resource constructed now
      would carry the serial |reg| and so differ from every stored one. */
  ghost predicate Wf(reg: Registry) {
    forall n :: n in reg ==> reg[n].name == n && reg[n].serial < |reg|
  }

  /** reg' keeps every entry of reg, with the very same resource. */
  ghost predicate Grows(reg: Registry, reg': Registry) {
    forall n :: n in reg ==> n in reg' && reg'[n] == reg[n]
  }

  /** The set of names occurring in a sequence. */
  function Elems(names: seq<string>): (r: set<string>)
    ensures forall n :: n in r <==> n in names
  {
    if |names| == 0 then {} else {names[0]} + Elems(names[1..])
  }

  /** Every name of the sequence is a key of the registry. */
  ghost predicate Registered(reg: Registry, names: seq<string>) {
    forall i :: 0 <= i < |names| ==> names[i] in reg
  }

  /** is_resource_known */
  predicate IsKnown(reg: Registry, name: string) {
    name in reg
  }

  /** create_unique_gantt_resource: construct a resource for the name only
      when the registry does not know it; a known name keeps its resource.
      The registry invariant is preserved. */
  function Ensure(reg: Registry, name: string): (r: Registry)
    ensures Grows(reg, r)
    ensures r.Keys == reg.Keys + {name}
    ensures name in reg ==> r == reg
    ensures name !in reg ==> r[name] == Resource(name, |reg|) && |r| == |reg| + 1
    ensures Wf(reg) ==> Wf(r)
  {
    if IsKnown(reg, name) then reg
    else
      InsertFresh(reg, name);
      reg[name := Resource(name, |reg|)]
  }

  /** A resource constructed for a new name takes the next serial. */
  lemma InsertFresh(reg: Registry, name: string)
    requires name !in reg
    ensures var r := reg[name := Resource(name, |reg|)];
            r.Keys == reg.Keys + {name} && |r| == |reg| + 1 && (Wf(reg) ==> Wf(r))
  {
  }

  /** The insert-if-absent guard is what keeps identities stable: a resource
      constructed anew for a known name would be a different object from
      the one every earlier task holds. */
  lemma RecreatingChangesIdentity(reg: Registry, name: string)
    requires Wf(reg) && name in reg
    ensures Resource(name, |reg|) != reg[name]
    ensures Ensure(reg, name)[name] == reg[name]
  {
  }

  /** A second call with the same name changes nothing. */
  lemma EnsureIdempotent(reg: Registry, name: string)
    ensures Ensure(Ensure(reg, name), name) == Ensure(reg, name)
  {
  }

  /** One loop of create_resourses_from_event: create_unique_gantt_resource
      for each name, in order. */
  function EnsureAll(reg: Registry, names: seq<string>): (r: Registry)
    ensures Grows(reg, r)
    ensures r.Keys == reg.Keys + Elems(names)
    ensures Registered(r, names)
    ensures Wf(reg) ==> Wf(r)
    decreases |names|
  {
    if |names| == 0 then reg
    else
      var r1 := Ensure(reg, names[0]);
      var r := EnsureAll(r1, names[1..]);
      GrowsTransitive(reg, r1, r);
      KeysCons(reg.Keys, r1.Keys, r.Keys, names);
      assert Registered(r, names) by {
        forall i | 0 <= i < |names|
          ensures names[i] in r
        {
          if i > 0 {
            assert names[i] == names[1..][i - 1];
          }
        }
      }
      r
  }

  /** Names that are all known already leave the registry as it is. */
  lemma EnsureAllKnown(reg: Registry, names: seq<string>)
    requires Elems(names) <= reg.Keys
    ensures EnsureAll(reg, names) == reg
  {
  }

  /** Registering the same names twice is the same as registering them once. */
  lemma EnsureAllIdempotent(reg: Registry, names: seq<string>)
    ensures EnsureAll(EnsureAll(reg, names), names) == EnsureAll(reg, names)
  {
  }

  /** One loop of retrieve_resources_for_event: `self.resources[name]` for
      each name, in order. A name that is not a key raises KeyError; the
      failure carries the first such name. */
  function LookupAll(reg: Registry, names: seq<string>): (r: Result<seq<Resource>, string>)
    ensures r.Success? <==> Registered(reg, names)
    ensures r.Success? ==> |r.value| == |names|
    ensures r.Success? ==> forall i :: 0 <= i < |names| ==> r.value[i] == reg[names[i]]
    ensures r.Failure? ==> FirstMissing(reg, names, r.error)
    decreases |names|
  {
    if |names| == 0 then Success([])
    else if names[0] !in reg then
      assert Registered(reg, names[..0]);
      Failure(names[0])
    else
      match LookupAll(reg, names[1..])
      case Failure(missing) =>
        FirstMissingCons(reg, names, missing);
        Failure(missing)
      case Success(rest) =>
        assert Registered(reg, names) by {
          forall i | 1 <= i < |names|
            ensures names[i] in reg
          {
            assert names[i] == names[1..][i - 1];
          }
        }
        Success([reg[names[0]]] + rest)
  }

  lemma FirstMissingCons(reg: Registry, names: seq<string>, name: string)
    requires |names| > 0 && names[0] in reg
    requires FirstMissing(reg, names[1..], name)
    ensures FirstMissing(reg, names, name)
  {
    var k :| 0 <= k < |names| - 1 && names[1..][k] == name && name !in reg && Registered(reg, names[1..][..k]);
    assert names[..k + 1] == [names[0]] + names[1..][..k];
    assert Registered(reg, names[..k + 1]);
  }

  lemma KeysCons(k0: set<string>, k1: set<string>, k2: set<string>, names: seq<string>)
    requires |names| > 0
    requires k1 == k0 + {names[0]}
    requires k2 == k1 + Elems(names[1..])
    ensures k2 == k0 + Elems(names)
  {
  }

  lemma ElemsAppend(xs: seq<string>, ys: seq<string>)
    ensures Elems(xs + ys) == Elems(xs) + Elems(ys)
  {
  }

  lemma UnionAppend(k0: set<string>, k1: set<string>, k2: set<string>, a: set<string>, b: set<string>)
    requires k1 == k0 + a && k2 == k1 + b
    ensures k2 == k0 + (a + b)
  {
  }

  /** Registered names stay registered as the registry grows. */
  lemma RegisteredGrows(reg: Registry, reg': Registry, names: seq<string>)
    requires Registered(reg, names) && Grows(reg, reg')
    ensures Registered(reg', names)
  {
  }

  lemma GrowsTransitive(r0: Registry, r1: Registry, r2: Registry)
    requires Grows(r0, r1) && Grows(r1, r2)
    ensures Grows(r0, r2)
  {
  }

  /** `name` is the first of `names`, in order, that is not a key of reg. */
  ghost predicate FirstMissing(reg: Registry, names: seq<string>, name: string) {
    exists k :: 0 <= k < |names| && names[k] == name && name !in reg && Registered(reg, names[..k])
  }
}
