/**
  The "done" checkboxes of the workout page (`saveCheck`, `loadChecks` and
  the "clear all" handler in treino/treino.js). The `checks` entry of
  `localStorage` holds one serialized record from exercise name to a
  boolean; serialization is the identity on such records, so the model
  keeps the record itself. Each rendered unit has a checkbox and a label
  that carries the `checked` class.
 */
module Checklist {
  import opened Wrappers

  /** The record stored under the `checks` key. */
  type Record = map<string, bool>

  /** The `checks` entry of `localStorage`: `None` when absent. */
  type Storage = Option<Record>

  /** One rendered unit: its checkbox state and whether its label carries
      the `checked` class. */
  datatype Unit = Unit(boxChecked: bool, marked: bool)

  /** The rendered units, by exercise name (`data-ex`). */
  type View = map<string, Unit>

  /** Every checkbox agrees with the class on its label. */
  predicate Consistent(view: View) {
    forall k :: k in view ==> view[k].boxChecked == view[k].marked
  }

  /** The record as the page reads it: an absent entry reads as `{}`. */
  function Stored(s: Storage): (r: Record)
    ensures s.None? ==> r == map[]
    ensures s.Some? ==> r == s.value
  {
    s.GetOr(map[])
  }

  /** `current[key]` is truthy: present and `true`. */
  predicate IsDone(r: Record, key: string) {
    key in r && r[key]
  }

  /** Storage and view after a handler ran. */
  datatype Page = Page(storage: Storage, view: View)

  /** `saveCheck` after the checkbox of unit `key` was set to `checked`:
      the label's class follows the box, and the stored record, read as
      `{}` when absent, gets `key` set to `checked` and is written back. */
  function SaveCheck(s: Storage, view: View, key: string, checked: bool): (r: Page)
    requires key in view
    ensures r.storage.Some?
    ensures Stored(r.storage).Keys == Stored(s).Keys + {key}
    ensures Stored(r.storage)[key] == checked
    ensures forall k :: k in Stored(s) && k != key ==> Stored(r.storage)[k] == Stored(s)[k]
    ensures r.view.Keys == view.Keys
    ensures r.view[key] == Unit(checked, checked)
    ensures forall k :: k in view && k != key ==> r.view[k] == view[k]
    ensures Consistent(view) ==> Consistent(r.view)
  {
    var current := Stored(s);
    Page(Some(current[key := checked]), view[key := Unit(checked, checked)])
  }

  /** `loadChecks`: every unit whose name is stored as done gets its box
      checked and its class added; nothing is ever unchecked. */
  function LoadChecks(s: Storage, view: View): (v: View)
    ensures v.Keys == view.Keys
    ensures forall k :: k in view ==> v[k].boxChecked == (view[k].boxChecked || IsDone(Stored(s), k))
    ensures forall k :: k in view ==> v[k].marked == (view[k].marked || IsDone(Stored(s), k))
    ensures Consistent(view) ==> Consistent(v)
  {
    var current := Stored(s);
    map k | k in view :: if IsDone(current, k) then Unit(true, true) else view[k]
  }

  /** The "clear all" handler: the stored entry is removed and every box
      and class is cleared. */
  function ClearAll(s: Storage, view: View): (r: Page)
    ensures r.storage.None? && Stored(r.storage) == map[]
    ensures r.view.Keys == view.Keys
    ensures forall k :: k in view ==> r.view[k] == Unit(false, false)
    ensures Consistent(r.view)
  {
    Page(None, map k | k in view :: Unit(false, false))
  }

  /** Saving a unit and loading later, into the same or a freshly
      rendered view, shows that unit done exactly when it was saved as
      done or was already checked there; every other unit reads what it
      read before the save. */
  lemma SaveThenLoad(s: Storage, view: View, key: string, checked: bool, later: View)
    requires key in view
    ensures key in later ==>
      LoadChecks(SaveCheck(s, view, key, checked).storage, later)[key].boxChecked == (later[key].boxChecked || checked)
    ensures forall k :: k in later && k != key ==>
      LoadChecks(SaveCheck(s, view, key, checked).storage, later)[k] == LoadChecks(s, later)[k]
  {
    var saved := Stored(SaveCheck(s, view, key, checked).storage);
    assert forall k :: k != key ==> IsDone(saved, k) == IsDone(Stored(s), k);
  }

  /** After "clear all", loading changes nothing in any view. */
  lemma ClearThenLoad(s: Storage, view: View, later: View)
    ensures LoadChecks(ClearAll(s, view).storage, later) == later
  {
  }

  /** Loading twice is the same as loading once. */
  lemma LoadIdempotent(s: Storage, view: View)
    ensures LoadChecks(s, LoadChecks(s, view)) == LoadChecks(s, view)
  {
  }

  /** Saving "Squat" as done on a fresh page and loading shows it done;
      after "clear all" the stored record reads as empty again. */
  lemma SquatExample(view: View)
    requires "Squat" in view
    ensures Stored(SaveCheck(None, view, "Squat", true).storage) == map["Squat" := true]
    ensures LoadChecks(SaveCheck(None, view, "Squat", true).storage, view)["Squat"] == Unit(true, view["Squat"].marked || true)
    ensures Stored(ClearAll(SaveCheck(None, view, "Squat", true).storage, view).storage) == map[]
  {
  }
}
