/** The three user commands (src/commands/saveContext.ts, switchContext.ts,
    overrideContext.ts).  Each command object holds the context store and the
    layout service and runs one `Execute`.  The user's answers to the input
    box, quick pick and confirmation dialog, the clock and the outcome of the
    store's write are inputs; what the command shows the user is its `Notice`.
    The store is reached directly: the configuration service between the
    commands and the file only rewraps error messages. */
module Commands {
  import opened Types
  import opened Host
  import opened Storage
  import opened Capture
  import opened Restore
  import opened Layout
  import Sorting

  /** The message a command ends with (error texts are not modelled). */
  datatype Notice =
    | Silent                      // the user cancelled: no message
    | Saved(name: string)         // information: context saved and selected
    | NoSavedContexts             // information: nothing to switch to
    | Switched(name: string)      // information: switched to the context
    | NoCurrentLayout             // warning: nothing selected to override
    | Overridden(name: string)    // information: layout updated
    | SaveError                   // error: failed to save context
    | SwitchError                 // error: failed to switch context
    | OverrideError               // error: failed to override layout

  /** The answer button of the override confirmation dialog. */
  const ConfirmOverride: string := "Yes, Override"

  // ---------------------------------------------------------------------------
  // Context ids

  function DigitChar(d: nat): (c: char)
    requires d < 10
    ensures '0' <= c <= '9'
  {
    ['0', '1', '2', '3', '4', '5', '6', '7', '8', '9'][d]
  }

  function DigitValue(c: char): nat
  {
    if '0' <= c <= '9' then (c as int - '0' as int) as nat else 0
  }

  lemma DigitRoundTrip(d: nat)
    requires d < 10
    ensures DigitValue(DigitChar(d)) == d
  {
  }

  /** `Number.prototype.toString()` of a millisecond timestamp: its decimal
      digits, most significant first, without leading zeros. */
  function DecimalString(n: nat): (s: string)
    ensures |s| >= 1
    ensures forall i :: 0 <= i < |s| ==> '0' <= s[i] <= '9'
    ensures |s| > 1 <==> n >= 10
    ensures |s| > 1 ==> s[0] != '0'
  {
    if n < 10 then [DigitChar(n)] else DecimalString(n / 10) + [DigitChar(n % 10)]
  }

  /** Different timestamps give different ids. */
  lemma {:induction false} DecimalStringInjective(a: nat, b: nat)
    requires DecimalString(a) == DecimalString(b)
    ensures a == b
  {
    var s := DecimalString(a);
    DigitRoundTrip(a % 10);
    DigitRoundTrip(b % 10);
    if a >= 10 && b >= 10 {
      assert DecimalString(a / 10) == s[..|s| - 1] == DecimalString(b / 10);
      DecimalStringInjective(a / 10, b / 10);
      assert DigitChar(a % 10) == s[|s| - 1] == DigitChar(b % 10);
    } else {
      assert a < 10 && b < 10;
      assert DigitChar(a) == s[0] == DigitChar(b);
    }
  }

  /** The context the save command builds: id and access time from one clock
      reading, no description. */
  function NewContext(name: string, now: nat, layout: WindowLayout): ProjectContext
  {
    ProjectContext(DecimalString(now), name, None, now, layout)
  }

  /** Contexts saved at different milliseconds are stored under different
      keys, so such saves never replace each other. Two saves within the same
      millisecond get the same id. */
  lemma SavesAtDistinctTimesDoNotCollide(name1: string, now1: nat, layout1: WindowLayout,
                                         name2: string, now2: nat, layout2: WindowLayout)
    requires now1 != now2
    ensures NewContext(name1, now1, layout1).id != NewContext(name2, now2, layout2).id
  {
    if DecimalString(now1) == DecimalString(now2) {
      DecimalStringInjective(now1, now2);
    }
  }

  // ---------------------------------------------------------------------------
  // Store invariants

  /** Every stored context sits under its own id. */
  ghost predicate WellKeyed(m: map<string, ProjectContext>)
  {
    forall k :: k in m ==> m[k].id == k
  }

  /** The selected context is the one stored under its id. */
  ghost predicate Consistent(storage: FileStorage, service: LayoutService)
    reads storage, service
  {
    service.currentContext.Some? ==>
      && storage.file.Stored?
      && service.currentContext.value.id in storage.file.contexts
      && storage.file.contexts[service.currentContext.value.id] == service.currentContext.value
  }

  // ---------------------------------------------------------------------------
  // The switch command's list

  /** `keyOrder` lists the store's keys once each, in `Object.values` order. */
  ghost predicate EnumeratesKeys(keyOrder: seq<string>, m: map<string, ProjectContext>)
  {
    && (forall i :: 0 <= i < |keyOrder| ==> keyOrder[i] in m)
    && (forall k :: k in m ==> k in keyOrder)
    && Sorting.Distinct(keyOrder)
  }

  /** `Object.values(contexts)` in the enumeration order `keyOrder`. */
  function Listing(keyOrder: seq<string>, m: map<string, ProjectContext>): (r: seq<ProjectContext>)
    requires forall i :: 0 <= i < |keyOrder| ==> keyOrder[i] in m
    ensures |r| == |keyOrder|
    ensures forall i :: 0 <= i < |r| ==> r[i] == m[keyOrder[i]]
  {
    seq(|keyOrder|, i requires 0 <= i < |keyOrder| => m[keyOrder[i]])
  }

  /** The switch command's comparator: a more recently accessed context first. */
  predicate MoreRecent(a: ProjectContext, b: ProjectContext)
  {
    a.lastAccessed >= b.lastAccessed
  }

  lemma MoreRecentIsTotalPreorder()
    ensures Sorting.TotalPreorder(MoreRecent)
  {
  }

  /** The contexts most recently accessed first: a reordering of the input. */
  function ByRecency(cs: seq<ProjectContext>): (r: seq<ProjectContext>)
    ensures multiset(r) == multiset(cs)
    ensures forall i, j :: 0 <= i < j < |r| ==> r[i].lastAccessed >= r[j].lastAccessed
  {
    MoreRecentIsTotalPreorder();
    Sorting.SortSorted(cs, MoreRecent);
    Sorting.Sort(cs, MoreRecent)
  }

  /** Contexts accessed at the same moment keep their listing order: the
      contexts tied with `y` (those with `y`'s access time) appear in the
      sorted list in the order they had before. */
  lemma ByRecencyKeepsTies(cs: seq<ProjectContext>, y: ProjectContext)
    ensures forall c :: Sorting.Tied(c, y, MoreRecent) <==> c.lastAccessed == y.lastAccessed
    ensures Sorting.Ties(ByRecency(cs), y, MoreRecent) == Sorting.Ties(cs, y, MoreRecent)
  {
    MoreRecentIsTotalPreorder();
    Sorting.SortIsStable(cs, y, MoreRecent);
  }

  /** A quick-pick entry: the context's name, its access time and the
      "Currently Selected" detail. */
  datatype PickItem = PickItem(labelText: string, lastAccessed: int, currentlySelected: bool, context: ProjectContext)

  function PickItems(cs: seq<ProjectContext>, current: Option<ProjectContext>): (items: seq<PickItem>)
    ensures |items| == |cs|
    ensures forall i :: 0 <= i < |items| ==>
              && items[i].context == cs[i]
              && items[i].labelText == cs[i].name
              && items[i].lastAccessed == cs[i].lastAccessed
    ensures forall i :: 0 <= i < |items| ==>
              (items[i].currentlySelected <==> current.Some? && current.value.id == cs[i].id)
  {
    seq(|cs|, i requires 0 <= i < |cs| =>
      PickItem(cs[i].name, cs[i].lastAccessed, current.Some? && current.value.id == cs[i].id, cs[i]))
  }

  /** The quick pick the switch command shows for the store `m`. */
  function SwitchItems(keyOrder: seq<string>, m: map<string, ProjectContext>, current: Option<ProjectContext>): seq<PickItem>
    requires forall i :: 0 <= i < |keyOrder| ==> keyOrder[i] in m
  {
    PickItems(ByRecency(Listing(keyOrder, m)), current)
  }

  lemma ListedIdsDistinct(keyOrder: seq<string>, m: map<string, ProjectContext>)
    requires EnumeratesKeys(keyOrder, m) && WellKeyed(m)
    ensures var r := ByRecency(Listing(keyOrder, m));
            forall i, j :: 0 <= i < j < |r| ==> r[i].id != r[j].id
  {
    var l := Listing(keyOrder, m);
    var r := ByRecency(l);
    assert Sorting.Distinct(l) by {
      forall i, j | 0 <= i < j < |l| ensures l[i] != l[j] {
        assert l[i].id == keyOrder[i] && l[j].id == keyOrder[j];
      }
    }
    Sorting.PermutationKeepsDistinct(l, r);
    forall i, j | 0 <= i < j < |r| ensures r[i].id != r[j].id {
      assert r[i] in multiset(l) && r[j] in multiset(l);
      var p :| 0 <= p < |l| && l[p] == r[i];
      var q :| 0 <= q < |l| && l[q] == r[j];
      assert p != q;
      assert r[i].id == keyOrder[p] && r[j].id == keyOrder[q];
    }
  }

  /** In a well-keyed store at most one entry is marked "Currently Selected". */
  lemma AtMostOneMarked(keyOrder: seq<string>, m: map<string, ProjectContext>, current: Option<ProjectContext>)
    requires EnumeratesKeys(keyOrder, m) && WellKeyed(m)
    ensures var items := SwitchItems(keyOrder, m, current);
            forall i, j :: 0 <= i < |items| && 0 <= j < |items| && items[i].currentlySelected && items[j].currentlySelected ==> i == j
  {
    ListedIdsDistinct(keyOrder, m);
  }

  /** The selected context, when stored, is marked "Currently Selected". */
  lemma StoredCurrentIsMarked(keyOrder: seq<string>, m: map<string, ProjectContext>, current: ProjectContext)
    requires EnumeratesKeys(keyOrder, m)
    requires current.id in m && m[current.id].id == current.id
    ensures var items := SwitchItems(keyOrder, m, Some(current));
            exists i :: 0 <= i < |items| && items[i].currentlySelected && items[i].context == m[current.id]
  {
    var l := Listing(keyOrder, m);
    var r := ByRecency(l);
    var p :| 0 <= p < |keyOrder| && keyOrder[p] == current.id;
    assert l[p] == m[current.id];
    assert l[p] in multiset(r);
    var q :| 0 <= q < |r| && r[q] == l[p];
    assert SwitchItems(keyOrder, m, Some(current))[q].currentlySelected;
  }

  // ---------------------------------------------------------------------------
  // Commands

  class SaveContextCommand {
    const storage: FileStorage
    const service: LayoutService

    constructor (storage: FileStorage, service: LayoutService)
      ensures this.storage == storage && this.service == service
    {
      this.storage := storage;
      this.service := service;
    }

    /** Saves the current window under `name` and selects it; an empty or
        cancelled name does nothing.  The context is stored before it is
        selected, so a failed write selects nothing.  `readFails` is the
        outcome of the store's read before its write. */
    method Execute(w: Window, name: Option<string>, now: nat, readFails: bool, writeFails: bool) returns (notice: Notice)
      modifies storage, service`currentContext
      ensures name.None? || name.value == "" ==>
                && notice == Silent
                && storage.file == old(storage.file) && service.currentContext == old(service.currentContext)
      ensures name.Some? && name.value != "" && writeFails ==>
                && notice == SaveError
                && storage.file == old(storage.file) && service.currentContext == old(service.currentContext)
      ensures name.Some? && name.value != "" && !writeFails ==>
                var context := NewContext(name.value, now, CapturedLayout(w, service.workspaceRoot, service.paths));
                && notice == Saved(name.value)
                && storage.file == Upserted(old(storage.file), readFails, context)
                && service.currentContext == Some(context)
      ensures notice.Saved? ==> Consistent(storage, service)
      ensures old(Consistent(storage, service)) ==> Consistent(storage, service)
      ensures old(WellKeyed(ReadContexts(storage.file))) ==> WellKeyed(ReadContexts(storage.file))
    {
      if name.None? || name.value == "" {
        return Silent;
      }
      var layout := service.CaptureCurrentLayout(w);
      var context := NewContext(name.value, now, layout);
      var outcome := storage.SaveContext(context, readFails, writeFails);
      if outcome.Fail? {
        return SaveError;
      }
      service.SetCurrentContext(Some(context));
      notice := Saved(name.value);
    }
  }

  class SwitchContextCommand {
    const storage: FileStorage
    const service: LayoutService

    constructor (storage: FileStorage, service: LayoutService)
      ensures this.storage == storage && this.service == service
    {
      this.storage := storage;
      this.service := service;
    }

    /** Lists the stored contexts, most recent first, and switches to the one
        the user picks (`pick`, an index into `items`): its access time is
        renewed and stored, it becomes the selected context, and its layout is
        replayed (`ops`).  A replay that stops on a missing first file ends in
        an error, after the context was stored and selected.  The store is
        read twice, for the list and again inside the save: `listReadFails`
        and `saveReadFails` are the outcomes of those reads. */
    method Execute(keyOrder: seq<string>, pick: Option<nat>, now: nat,
                   listReadFails: bool, saveReadFails: bool, writeFails: bool, fileExists: string -> bool)
      returns (notice: Notice, items: seq<PickItem>, ops: seq<HostOp>)
      requires EnumeratesKeys(keyOrder, Read(storage.file, listReadFails))
      requires pick.Some? ==> pick.value < |keyOrder|
      modifies storage, service`currentContext
      ensures |keyOrder| == 0 ==>
                && notice == NoSavedContexts && items == [] && ops == []
                && storage.file == old(storage.file) && service.currentContext == old(service.currentContext)
      ensures |keyOrder| > 0 ==>
                items == SwitchItems(keyOrder, Read(old(storage.file), listReadFails), old(service.currentContext))
      ensures |keyOrder| > 0 && pick.None? ==>
                && notice == Silent && ops == []
                && storage.file == old(storage.file) && service.currentContext == old(service.currentContext)
      ensures |keyOrder| > 0 && pick.Some? && writeFails ==>
                && notice == SwitchError && ops == []
                && storage.file == old(storage.file) && service.currentContext == old(service.currentContext)
      ensures |keyOrder| > 0 && pick.Some? && !writeFails ==>
                var selected := items[pick.value].context.(lastAccessed := now);
                && storage.file == Upserted(old(storage.file), saveReadFails, selected)
                && service.currentContext == Some(selected)
                && Plan(ops, notice.Switched?) == RestorePlan(selected.layout, service.workspaceRoot, service.paths, fileExists)
                && (notice.Switched? ==> notice.name == selected.name)
                && (!notice.Switched? ==> notice == SwitchError)
      ensures notice.Switched? ==> Consistent(storage, service)
      ensures old(Consistent(storage, service)) ==> Consistent(storage, service)
      ensures old(WellKeyed(ReadContexts(storage.file))) ==> WellKeyed(ReadContexts(storage.file))
    {
      var contexts := storage.GetAllContexts(listReadFails);
      var contextList := Listing(keyOrder, contexts);
      if |contextList| == 0 {
        return NoSavedContexts, [], [];
      }
      contextList := ByRecency(contextList);
      var current := service.GetCurrentContext();
      items := PickItems(contextList, current);
      if pick.None? {
        return Silent, items, [];
      }
      var selected := items[pick.value].context.(lastAccessed := now);
      var outcome := storage.SaveContext(selected, saveReadFails, writeFails);
      if outcome.Fail? {
        return SwitchError, items, [];
      }
      service.SetCurrentContext(Some(selected));
      var completed;
      ops, completed := service.RestoreLayout(selected.layout, fileExists);
      notice := if completed then Switched(selected.name) else SwitchError;
    }
  }

  class OverrideContextCommand {
    const storage: FileStorage
    const service: LayoutService

    constructor (storage: FileStorage, service: LayoutService)
      ensures this.storage == storage && this.service == service
    {
      this.storage := storage;
      this.service := service;
    }

    /** Replaces the selected context's layout with the current window, after
        the user confirms; id, name and description are kept and the access
        time renewed.  Nothing is replayed.  `readFails` is the outcome of
        the store's read before its write. */
    method Execute(w: Window, confirmation: Option<string>, now: nat, readFails: bool, writeFails: bool) returns (notice: Notice)
      modifies storage, service`currentContext
      ensures old(service.currentContext).None? ==>
                && notice == NoCurrentLayout
                && storage.file == old(storage.file) && service.currentContext == old(service.currentContext)
      ensures old(service.currentContext).Some? && confirmation != Some(ConfirmOverride) ==>
                && notice == Silent
                && storage.file == old(storage.file) && service.currentContext == old(service.currentContext)
      ensures old(service.currentContext).Some? && confirmation == Some(ConfirmOverride) && writeFails ==>
                && notice == OverrideError
                && storage.file == old(storage.file) && service.currentContext == old(service.currentContext)
      ensures old(service.currentContext).Some? && confirmation == Some(ConfirmOverride) && !writeFails ==>
                var previous := old(service.currentContext).value;
                var updated := previous.(lastAccessed := now, layout := CapturedLayout(w, service.workspaceRoot, service.paths));
                && notice == Overridden(previous.name)
                && storage.file == Upserted(old(storage.file), readFails, updated)
                && service.currentContext == Some(updated)
      ensures notice.Overridden? ==> Consistent(storage, service)
      ensures old(Consistent(storage, service)) ==> Consistent(storage, service)
      ensures old(WellKeyed(ReadContexts(storage.file))) ==> WellKeyed(ReadContexts(storage.file))
    {
      var currentContext := service.GetCurrentContext();
      if currentContext.None? {
        return NoCurrentLayout;
      }
      if confirmation != Some(ConfirmOverride) {
        return Silent;
      }
      var layout := service.CaptureCurrentLayout(w);
      var updatedContext := currentContext.value.(lastAccessed := now, layout := layout);
      var outcome := storage.SaveContext(updatedContext, readFails, writeFails);
      if outcome.Fail? {
        return OverrideError;
      }
      service.SetCurrentContext(Some(updatedContext));
      notice := Overridden(updatedContext.name);
    }
  }
}
