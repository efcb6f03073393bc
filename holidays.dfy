/** The holiday registry: one set of date keys shared by every semester.
    A key is a holiday exactly when it is in the set (the source stores the
    set as an object whose values are all `true`). */
module Holidays {
  import opened Ledger

  /** toggleHoliday: remove the key when present, add it otherwise. */
  function Toggle(holidays: set<DateKey>, key: DateKey): (r: set<DateKey>)
    ensures key in r <==> key !in holidays
    ensures forall k {:trigger k in r} :: k != key ==> (k in r <==> k in holidays)
  {
    if key in holidays then holidays - {key} else holidays + {key}
  }

  /** Toggling the same date twice restores the registry. */
  lemma ToggleTwice(holidays: set<DateKey>, key: DateKey)
    ensures Toggle(Toggle(holidays, key), key) == holidays
  {
    var once := Toggle(holidays, key);
    assert forall k :: k in Toggle(once, key) <==> k in holidays;
  }

  /** Toggles of different dates commute. */
  lemma ToggleCommutes(holidays: set<DateKey>, a: DateKey, b: DateKey)
    ensures Toggle(Toggle(holidays, a), b) == Toggle(Toggle(holidays, b), a)
  {
    var ab, ba := Toggle(Toggle(holidays, a), b), Toggle(Toggle(holidays, b), a);
    assert forall k :: k in ab <==> k in ba;
  }
}
