# C3VOC case calendar, modelled in Dafny

The C3VOC case calendar reads a mapping from event name to event details.
Each event has a `start` date, an `end` date, a list of `room cases` and a
list of `audio cases`. The calendar turns every event into a Gantt task that
holds one Gantt resource per case, and then renders the Gantt project for the
current year. This project models that core:

- **The resource registry** (`registry.dfy`, module `Registry`). A map from
  case name to the one resource created for it. A resource is created only
  for a name the map does not hold yet (insert-if-absent). So every
  occurrence of a case, across all events, shares one resource.
- **Event-to-task assembly** (`calendar.dfy`, module `Calendar`). It covers
  registering an event's cases and looking up its resources (room cases
  first, then audio cases; a missing case is the source's `KeyError`). It
  also covers building the task with its day-count duration, and the
  in-order walk over the mapping that registers, builds and appends one task
  per event.
- **The yearly export window** (`export.dfy`, module `Export`). January 1 to
  December 31 of today's year, derived from `today` by `date.replace`.
- **Dates** (`dates.dfy`, module `Dates`). Python's `datetime.date`: the
  proleptic Gregorian calendar for the years 1 to 9999. `toordinal` is
  written out in closed form. A date difference is the difference of the two
  ordinals.
- `wrappers.dfy` (module `Wrappers`) holds `Option` and `Result`. They stand
  for the source's exceptions (`KeyError`, `ValueError`) as values.

The model is functional. The registry is an immutable
`map<string, Resource>` threaded through pure functions. The Gantt project is
the sequence of tasks added to it. A `gantt.Resource` is modelled as
`Resource(name, serial)`. `serial` stands for the Python object's identity:
the k-th resource constructed in a run has serial k. This makes "the existing
resource is never replaced" an observable property. `Wf` is the registry
invariant: every key maps to a resource of that name, with a serial below the
registry's size.

Duration is `(end - start).days` (c3voc_calendar.py:65-69). The end day is
not counted, so an event with `start == end` gets duration 0. If `end`
precedes `start` the duration is negative; nothing checks for that. An event
without cases gets an empty resource list.

## Model

| member | source | states |
|---|---|---|
| Registry.Ensure | c3voc_calendar.py:26-32 | Inserts the name if absent, the absence being `is_resource_known` (`Registry.IsKnown`). The keys become the old keys plus the name. Every existing entry keeps its very resource. A known name leaves the registry unchanged. A new name gets a freshly constructed resource, and the registry invariant is preserved. |
| Registry.EnsureIdempotent | c3voc_calendar.py:29-32 | A second `create_unique_gantt_resource` with the same name is a no-op. |
| Registry.RecreatingChangesIdentity | c3voc_calendar.py:29-32 | Without the `is_resource_known` guard, a known name would get a new object that differs from its stored resource. With the guard, the stored resource is kept. |
| Registry.EnsureAll | c3voc_calendar.py:39-43 | Registering a list of names adds exactly those names as keys. Every name of the list is then registered, and existing entries are untouched. The invariant is preserved. |
| Registry.EnsureAllKnown | c3voc_calendar.py:29-43 | Names that are all registered already leave the registry unchanged. |
| Registry.EnsureAllIdempotent | c3voc_calendar.py:34-43 | Registering the same list twice equals registering it once. |
| Registry.LookupAll | c3voc_calendar.py:50-56 | Looks up every name, in order. It succeeds iff every name is a key. The result has the list's length, and element i is the registry entry of name i. Otherwise it fails with the first missing name (the `KeyError`). |
| Calendar.RegisterEvent | c3voc_calendar.py:34-43 | Afterwards every room case and every audio case is a key. All earlier keys keep their resources, and no other key is added. The invariant is preserved. |
| Calendar.RegisterEventIdempotent | c3voc_calendar.py:34-43 | Registering an event twice equals registering it once. |
| Calendar.RetrieveResources | c3voc_calendar.py:45-58 | Succeeds iff every case of the event is registered. The list has length room cases plus audio cases. Element i is the entry of the i-th case, room cases first, duplicates kept. Otherwise it fails with the first unregistered case, room cases first. |
| Calendar.CreateTask | c3voc_calendar.py:61-80 | Succeeds iff all cases are registered. The task then has the event's name and start date, and its duration is the signed day count from start to end. Its resources are those of `retrieve_resources_for_event`. Otherwise it fails with the first missing case. |
| Calendar.AddEntry | c3voc_calendar.py:88-96 | One loop iteration. It registers the event's cases, so building the task cannot fail, then appends exactly one task after the existing ones. The registry grows by exactly the event's cases and keeps its invariant. |
| Calendar.AddEntryTask | c3voc_calendar.py:88-96 | The appended task is the event's task, measured against the registry after the iteration. |
| Calendar.CreateCalendar | c3voc_calendar.py:83-96 | The project gains exactly one task per event, after the tasks it held. The registry only grows, keeping every earlier resource and the invariant. |
| Calendar.CreateCalendarLast | c3voc_calendar.py:88-96 | The walk over the events is the walk over all but the last event, followed by one iteration for the last. |
| Calendar.CreateCalendarKeys | c3voc_calendar.py:88-93 | The final registry's keys are the initial keys plus every case of every event, and nothing else. |
| Calendar.CreateCalendarTasks | c3voc_calendar.py:88-96 | Task i of the walk belongs to event i, in mapping order. It has the event's name, start and duration, and the final registry's resource for each case, room cases first. |
| Calendar.SharedCaseSharedResource | c3voc_calendar.py:34-58 | One Gantt resource per case across all events. Two occurrences of the same case name, in any tasks, hold the same resource. |
| Calendar.TaskResourcesNamed | c3voc_calendar.py:26-58 | From a registry that keeps the invariant, each task's a-th resource is tagged with the task's a-th case name. |
| Calendar.SingleEntryExample | c3voc_calendar.py:61-96 | An event with S1 and A1 from 2024-03-01 to 2024-03-02 yields one task of duration 1 with resources S1 then A1. The registry then holds exactly S1 and A1. |
| Dates.OrdinalOrder | c3voc_calendar.py:67 | The day ordinal orders dates as the calendar does, and two dates have the same ordinal only if they are equal. |
| Dates.OrdinalOfFirstDate | c3voc_calendar.py:67 | The ordinal agrees with `date.toordinal`: 0001-01-01 is day 1. |
| Dates.DaysBetween | c3voc_calendar.py:65-69 | `(end - start).days` is zero iff the dates are equal. It is positive iff start is earlier and negative iff end is earlier. |
| Dates.NextDay | c3voc_calendar.py:65-69 | The calendar's next day, stepping over month and year ends. Only the last representable date has none, and the next day is always a later date. |
| Dates.NextDayOrdinal | c3voc_calendar.py:65-69 | Consecutive calendar days have consecutive ordinals, across month and year ends. |
| Dates.DaysBetweenCountsDays | c3voc_calendar.py:65-69 | Stepping k calendar days forward from a date reaches a date whose day count from it is exactly k. So `(end - start).days` counts calendar days. |
| Dates.DaysBetweenSameMonth | c3voc_calendar.py:65-69 | Within one month, the duration is the difference of the days. |
| Export.ReplaceDay | c3voc_calendar.py:102-107 | `date.replace(day=…)` succeeds iff the day exists in that month. It then changes only the day. |
| Export.ReplaceMonth | c3voc_calendar.py:103-106 | `date.replace(month=…)` succeeds iff the month is 1 to 12 and has the current day. It then changes only the month. |
| Export.YearWindow | c3voc_calendar.py:98-107 | None of the four replace steps can fail. The window is January 1 to December 31 of today's year, and it contains today. |
| Export.YearWindowIsTheYear | c3voc_calendar.py:100-107 | A date lies in the window iff it is in today's year. |
| Export.YearWindowLength | c3voc_calendar.py:100-107 | The window's end lies the length of the year minus one days after its start. |

## Left out

- `load_yaml_file` (c3voc_calendar.py:12-24): file I/O and YAML decoding. The model takes the decoded mapping as its input.
- The model covers only event details whose `start` and `end` are `date` values and whose `room cases` and `audio cases` are lists of strings. An event lacking one of these keys makes the source raise `KeyError`; the model's `Event` record always has all four fields.
- A case field that holds a single string (`room cases: S1`) is accepted by the source without raising: lines 39, 42, 50 and 54 iterate it character by character, registering and looking up one resource per character. The model leaves this out; its case lists are lists of names.
- `start` and `end` values that YAML decodes to `datetime.datetime` (a timestamp with a time of day) are accepted by the source without raising: line 67 subtracts them and `.days` rounds the difference down to whole days. The model leaves this out; its dates are calendar dates.
- The mapping is modelled as a sequence of (name, details) entries in iteration order. YAML mapping keys are unique, but no part of the model depends on that.
- `gantt.Project`, `add_task` and `make_svg_for_resources`: an external rendering library. The project is modelled only as the sequence of tasks added to it. The window is only computed, not rendered.
- `datetime.date.today()`: a clock read. `today` is a parameter of `Export.YearWindow`.
- `main` and the `argparse` block (c3voc_calendar.py:115-138): command-line plumbing and printing.
- The class-level `resources = {}` (c3voc_calendar.py:10) is shared by all instances. The model treats the registry as state owned by one run and passed in explicitly.
- The Python `int` holding the duration is unbounded, as in the model. Date arithmetic cannot overflow within the years 1 to 9999.
