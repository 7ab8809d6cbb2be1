/** Event-to-task assembly of C3VOCCalendar: registering an event's cases,
    looking up its resources, building its Gantt task and walking the
    decoded calendar mapping in order. */
module Calendar {
  import opened Wrappers
  import opened Dates
  import opened Registry

  /** The details of one decoded calendar entry: its 'start' and 'end' dates
      and its 'room cases' and 'audio cases' lists. */
  datatype Event = Event(start: ValidDate, end: ValidDate, roomCases: seq<string>, audioCases: seq<string>)

  /** One item of the decoded mapping, in the mapping's iteration order. */
  datatype Entry = Entry(name: string, details: Event)

  /** A gantt.Task as the calendar builds it. */
  datatype Task = Task(name: string, start: ValidDate, duration: int, resources: seq<Resource>)

  /** The state one run builds: the resource registry and the tasks added to
      the Gantt project, in the order they were added. */
  datatype Calendar = Calendar(registry: Registry, project: seq<Task>)

  /** All case names of an event, room cases before audio cases. */
  function CaseNames(e: Event): seq<string> {
    e.roomCases + e.audioCases
  }

  /** t is the task the calendar makes for entry (name, e) when the registry
      is reg: same name and start, the signed day count from start to end
      as duration, and the registered resource of each case name, room
      cases first, duplicates kept. */
  ghost predicate Realises(t: Task, name: string, e: Event, reg: Registry) {
    && t.name == name
    && t.start == e.start
    && t.duration == DaysBetween(e.start, e.end)
    && |t.resources| == |e.roomCases| + |e.audioCases|
    && Registered(reg, CaseNames(e))
    && forall i :: 0 <= i < |t.resources| ==> t.resources[i] == reg[CaseNames(e)[i]]
  }

  /** create_resourses_from_event: every room case and every audio case of
      the event becomes a key; existing entries keep their resources; no
      other key appears. */
  function RegisterEvent(reg: Registry, e: Event): (r: Registry)
    ensures Grows(reg, r)
    ensures r.Keys == reg.Keys + Elems(CaseNames(e))
    ensures Registered(r, CaseNames(e))
    ensures Wf(reg) ==> Wf(r)
  {
    var r1 := EnsureAll(reg, e.roomCases);
    var r := EnsureAll(r1, e.audioCases);
    GrowsTransitive(reg, r1, r);
    RegisteredGrows(r1, r, e.roomCases);
    RegisteredAppend(r, e.roomCases, e.audioCases);
    ElemsAppend(e.roomCases, e.audioCases);
    UnionAppend(reg.Keys, r1.Keys, r.Keys, Elems(e.roomCases), Elems(e.audioCases));
    r
  }

  /** Registering an event a second time changes nothing. */
  lemma RegisterEventIdempotent(reg: Registry, e: Event)
    ensures RegisterEvent(RegisterEvent(reg, e), e) == RegisterEvent(reg, e)
  {
  }

  /** retrieve_resources_for_event: the registered resource of every room
      case, then of every audio case. It succeeds exactly when all the
      event's cases are registered; otherwise it fails with the first case
      name (room cases first) that raises KeyError. */
  function RetrieveResources(reg: Registry, e: Event): (r: Result<seq<Resource>, string>)
    ensures r.Success? <==> Registered(reg, CaseNames(e))
    ensures r.Success? ==> |r.value| == |e.roomCases| + |e.audioCases|
    ensures r.Success? ==> forall i :: 0 <= i < |r.value| ==> r.value[i] == reg[CaseNames(e)[i]]
    ensures r.Failure? ==> FirstMissing(reg, CaseNames(e), r.error)
  {
    match LookupAll(reg, e.roomCases)
    case Failure(missing) =>
      FirstMissingPrefix(reg, e.roomCases, e.audioCases, missing);
      Failure(missing)
    case Success(rooms) =>
      match LookupAll(reg, e.audioCases)
      case Failure(missing) =>
        FirstMissingSuffix(reg, e.roomCases, e.audioCases, missing);
        Failure(missing)
      case Success(audios) =>
        RegisteredAppend(reg, e.roomCases, e.audioCases);
        Success(rooms + audios)
  }

  lemma RegisteredAppend(reg: Registry, xs: seq<string>, ys: seq<string>)
    ensures Registered(reg, xs + ys) <==> Registered(reg, xs) && Registered(reg, ys)
  {
    if Registered(reg, xs + ys) {
      forall i | 0 <= i < |xs| ensures xs[i] in reg {
        assert (xs + ys)[i] == xs[i];
      }
      forall i | 0 <= i < |ys| ensures ys[i] in reg {
        assert (xs + ys)[|xs| + i] == ys[i];
      }
    }
  }

  lemma FirstMissingPrefix(reg: Registry, xs: seq<string>, ys: seq<string>, name: string)
    requires FirstMissing(reg, xs, name)
    ensures FirstMissing(reg, xs + ys, name)
  {
    var k :| 0 <= k < |xs| && xs[k] == name && name !in reg && Registered(reg, xs[..k]);
    assert (xs + ys)[..k] == xs[..k];
    assert (xs + ys)[k] == xs[k];
  }

  lemma FirstMissingSuffix(reg: Registry, xs: seq<string>, ys: seq<string>, name: string)
    requires Registered(reg, xs)
    requires FirstMissing(reg, ys, name)
    ensures FirstMissing(reg, xs + ys, name)
  {
    var k :| 0 <= k < |ys| && ys[k] == name && name !in reg && Registered(reg, ys[..k]);
    assert (xs + ys)[..|xs| + k] == xs + ys[..k];
    RegisteredAppend(reg, xs, ys[..k]);
    assert (xs + ys)[|xs| + k] == ys[k];
  }

  /** create_event_as_gantt_task: the task for one entry. It fails, as the
      source's KeyError, exactly when some case of the event is not
      registered; on success it is the task Realises describes. */
  function CreateTask(reg: Registry, name: string, e: Event): (r: Result<Task, string>)
    ensures r.Success? <==> Registered(reg, CaseNames(e))
    ensures r.Success? ==> Realises(r.value, name, e, reg)
    ensures r.Failure? ==> FirstMissing(reg, CaseNames(e), r.error)
  {
    var days := DaysBetween(e.start, e.end);
    var resources :- RetrieveResources(reg, e);
    Success(Task(name, e.start, days, resources))
  }

  /** Realises only depends on the entries of the names the event uses, so
      it survives the registry's growth. */
  lemma RealisesGrows(t: Task, name: string, e: Event, reg: Registry, reg': Registry)
    requires Realises(t, name, e, reg)
    requires Grows(reg, reg')
    ensures Realises(t, name, e, reg')
  {
  }

  /** One iteration of create_calendar's loop: register the entry's cases,
      build its task (which then cannot fail: every case has just been
      registered) and append the task to the project. */
  function AddEntry(c: Calendar, entry: Entry): (c': Calendar)
    ensures Grows(c.registry, c'.registry)
    ensures c'.registry.Keys == c.registry.Keys + Elems(CaseNames(entry.details))
    ensures |c'.project| == |c.project| + 1
    ensures c'.project[..|c.project|] == c.project
    ensures Wf(c.registry) ==> Wf(c'.registry)
  {
    var e := entry.details;
    var reg := RegisterEvent(c.registry, e);
    var task := CreateTask(reg, entry.name, e);
    var project := c.project + [task.value];
    assert project[..|c.project|] == c.project;
    Calendar(reg, project)
  }

  /** The task AddEntry appends is the entry's task, against the registry
      AddEntry leaves behind. */
  lemma AddEntryTask(c: Calendar, entry: Entry)
    ensures var c' := AddEntry(c, entry);
            Realises(c'.project[|c.project|], entry.name, entry.details, c'.registry)
  {
  }

  /** create_calendar: run AddEntry over the entries in the mapping's
      iteration order. The registry only grows and the project gains
      exactly one task per entry, after the tasks it already held;
      CreateCalendarKeys and CreateCalendarTasks say which keys and which
      tasks. */
  function CreateCalendar(reg: Registry, project: seq<Task>, entries: seq<Entry>): (c: Calendar)
    ensures Grows(reg, c.registry)
    ensures |c.project| == |project| + |entries|
    ensures c.project[..|project|] == project
    ensures Wf(reg) ==> Wf(c.registry)
    decreases |entries|
  {
    if |entries| == 0 then Calendar(reg, project)
    else
      var c0 := CreateCalendar(reg, project, entries[..|entries| - 1]);
      var c := AddEntry(c0, entries[|entries| - 1]);
      GrowsTransitive(reg, c0.registry, c.registry);
      assert |c0.project| == |project| + |entries| - 1;
      assert c.project[..|project|] == c.project[..|c0.project|][..|project|];
      c
  }

  /** The walk over a non-empty sequence of entries is the walk over all
      but the last, followed by one AddEntry for the last. */
  lemma CreateCalendarLast(reg: Registry, project: seq<Task>, entries: seq<Entry>)
    requires |entries| > 0
    ensures var n := |entries| - 1;
            CreateCalendar(reg, project, entries) == AddEntry(CreateCalendar(reg, project, entries[..n]), entries[n])
  {
  }

  /** All case names of all entries. */
  function AllCases(entries: seq<Entry>): set<string> {
    if |entries| == 0 then {}
    else AllCases(entries[..|entries| - 1]) + Elems(CaseNames(entries[|entries| - 1].details))
  }

  /** After create_calendar the registry's keys are the initial keys plus
      every case of every entry, and nothing else. */
  lemma {:induction false} CreateCalendarKeys(reg: Registry, project: seq<Task>, entries: seq<Entry>)
    ensures CreateCalendar(reg, project, entries).registry.Keys == reg.Keys + AllCases(entries)
    decreases |entries|
  {
    if |entries| > 0 {
      var n := |entries| - 1;
      CreateCalendarKeys(reg, project, entries[..n]);
      var c0 := CreateCalendar(reg, project, entries[..n]);
      var c := AddEntry(c0, entries[n]);
      CreateCalendarLast(reg, project, entries);
      UnionAppend(reg.Keys, c0.registry.Keys, c.registry.Keys, AllCases(entries[..n]), Elems(CaseNames(entries[n].details)));
    }
  }

  /** After create_calendar, the task at position |project| + i is the one
      entry i yields, measured against the final registry: its name, start,
      duration and the shared resources of its cases. */
  lemma {:induction false} CreateCalendarTasks(reg: Registry, project: seq<Task>, entries: seq<Entry>, i: int)
    requires 0 <= i < |entries|
    ensures var c := CreateCalendar(reg, project, entries);
            Realises(c.project[|project| + i], entries[i].name, entries[i].details, c.registry)
    decreases |entries|
  {
    var n := |entries| - 1;
    var c0 := CreateCalendar(reg, project, entries[..n]);
    var c := AddEntry(c0, entries[n]);
    CreateCalendarLast(reg, project, entries);
    if i < n {
      CreateCalendarTasks(reg, project, entries[..n], i);
      assert entries[..n][i] == entries[i];
      var t := c0.project[|project| + i];
      assert c.project[|project| + i] == t by {
        assert c.project[..|c0.project|][|project| + i] == t;
      }
      RealisesGrows(t, entries[i].name, entries[i].details, c0.registry, c.registry);
    } else {
      assert i == n && |c0.project| == |project| + i;
      AddEntryTask(c0, entries[i]);
    }
  }

  /** One Gantt resource per case over all events: wherever the same case
      name occurs, in the same task or in two different ones, the tasks hold
      the very same resource. */
  lemma SharedCaseSharedResource(reg: Registry, project: seq<Task>, entries: seq<Entry>,
                                 i: int, a: int, j: int, b: int)
    requires 0 <= i < |entries| && 0 <= a < |CaseNames(entries[i].details)|
    requires 0 <= j < |entries| && 0 <= b < |CaseNames(entries[j].details)|
    requires CaseNames(entries[i].details)[a] == CaseNames(entries[j].details)[b]
    ensures var c := CreateCalendar(reg, project, entries);
            var ti, tj := c.project[|project| + i], c.project[|project| + j];
            a < |ti.resources| && b < |tj.resources| && ti.resources[a] == tj.resources[b]
  {
    CreateCalendarTasks(reg, project, entries, i);
    CreateCalendarTasks(reg, project, entries, j);
  }

  /** Starting from a registry that keeps its invariant, the a-th resource
      of every task is the resource of the task's a-th case name (room cases
      first). */
  lemma TaskResourcesNamed(reg: Registry, project: seq<Task>, entries: seq<Entry>, i: int, a: int)
    requires Wf(reg)
    requires 0 <= i < |entries| && 0 <= a < |CaseNames(entries[i].details)|
    ensures var c := CreateCalendar(reg, project, entries);
            var t := c.project[|project| + i];
            a < |t.resources| && t.resources[a].name == CaseNames(entries[i].details)[a]
  {
    CreateCalendarTasks(reg, project, entries, i);
  }

  /** One entry with room case S1 and audio case A1 from March 1 to March 2,
      2024, on a fresh registry: one task, of duration 1 (the end day is not
      counted), holding the S1 resource and then the A1 resource, and a
      registry of exactly S1 and A1. */
  lemma SingleEntryExample()
    ensures var e := Event(Date(2024, 3, 1), Date(2024, 3, 2), ["S1"], ["A1"]);
            var c := CreateCalendar(map[], [], [Entry("Talk A", e)]);
            && c.registry.Keys == {"S1", "A1"}
            && |c.project| == 1
            && c.project[0].name == "Talk A"
            && c.project[0].duration == 1
            && |c.project[0].resources| == 2
            && c.project[0].resources[0].name == "S1"
            && c.project[0].resources[1].name == "A1"
  {
    var e := Event(Date(2024, 3, 1), Date(2024, 3, 2), ["S1"], ["A1"]);
    var entries := [Entry("Talk A", e)];
    var reg: Registry := map[];
    CreateCalendarKeys(reg, [], entries);
    assert AllCases(entries) == {"S1", "A1"} by {
      assert entries[..0] == [];
      assert Elems(CaseNames(e)) == {"S1", "A1"};
    }
    CreateCalendarTasks(reg, [], entries, 0);
    DaysBetweenSameMonth(e.start, e.end);
    TaskResourcesNamed(reg, [], entries, 0, 0);
    TaskResourcesNamed(reg, [], entries, 0, 1);
  }
}
