/** The application state (appData): the current semester number, every
    semester's subjects and ledger, and the global holiday registry, held
    in one object whose methods update it in place. Each method's new
    state is the old one with the current semester's value replaced by the
    matching function of module Ledger (or module Holidays). Persistence
    after each update and re-rendering are left to the caller. */
module App {
  import opened Wrappers
  import opened Ledger
  import Holidays

  /** A parsed persisted snapshot; `holidays` is None when the stored data had no holiday set. */
  datatype Snapshot = Snapshot(currentSemester: int, semesters: map<int, Semester>, holidays: Option<set<DateKey>>)

  /** initSemester on a value: the semester map with semester n present, created empty when missing. */
  function WithSemester(semesters: map<int, Semester>, n: int): (r: map<int, Semester>)
    ensures n in r && r.Keys == semesters.Keys + {n}
    ensures n !in semesters ==> r[n] == EmptySemester
    ensures forall k {:trigger r[k]} :: k in semesters ==> r[k] == semesters[k]
  {
    if n in semesters then semesters else semesters[n := EmptySemester]
  }

  class AppData {
    var currentSemester: int
    var semesters: map<int, Semester>
    var holidays: set<DateKey>

    /** The current semester always exists once the state is loaded. */
    ghost predicate Valid()
      reads this
    {
      currentSemester in semesters
    }

    /** getCurrentSemesterData, for a valid state (where its initSemester call changes nothing). */
    function SemesterData(): Semester
      reads this
      requires Valid()
    {
      semesters[currentSemester]
    }

    /** The initial appData followed by loadData: a snapshot that was read and parsed replaces it,
        with a missing holiday set defaulted to empty; then the current semester is created if missing. */
    constructor Load(saved: Option<Snapshot>)
      ensures Valid()
      ensures saved.None? ==> currentSemester == 1 && semesters == map[1 := EmptySemester] && holidays == {}
      ensures saved.Some? ==>
        && currentSemester == saved.value.currentSemester
        && semesters == WithSemester(saved.value.semesters, saved.value.currentSemester)
        && holidays == (if saved.value.holidays.Some? then saved.value.holidays.value else {})
    {
      currentSemester := 1;
      semesters := map[];
      holidays := {};
      if saved.Some? {
        currentSemester := saved.value.currentSemester;
        semesters := saved.value.semesters;
        holidays := if saved.value.holidays.Some? then saved.value.holidays.value else {};
      }
      new;
      InitSemester(currentSemester);
    }

    /** initSemester: create semester n with no subjects and no attendance if it does not exist. */
    method InitSemester(n: int)
      modifies this
      ensures semesters == WithSemester(old(semesters), n)
      ensures currentSemester == old(currentSemester) && holidays == old(holidays)
    {
      if n !in semesters {
        semesters := semesters[n := EmptySemester];
      }
    }

    /** changeSemester, given the already parsed semester number. */
    method ChangeSemester(n: int)
      modifies this
      ensures Valid() && currentSemester == n
      ensures semesters == WithSemester(old(semesters), n) && holidays == old(holidays)
    {
      currentSemester := n;
      InitSemester(currentSemester);
    }

    /** addSubject: a name that trims to nothing is ignored; otherwise the trimmed subject,
        with the caller's fresh id, is appended to the current semester's list. */
    method AddSubject(name: string, code: string, newId: SubjectId)
      requires Valid()
      modifies this
      ensures Valid() && currentSemester == old(currentSemester) && holidays == old(holidays)
      ensures Trim(name) == [] ==> semesters == old(semesters)
      ensures Trim(name) != [] ==>
        semesters == old(semesters)[currentSemester := old(SemesterData()).(subjects := old(SemesterData()).subjects + [Subject(newId, Trim(name), Trim(code))])]
    {
      if name == [] || Trim(name) == [] {
        return;
      }
      var semester := SemesterData();
      var subject := Subject(newId, Trim(name), Trim(code));
      semesters := semesters[currentSemester := semester.(subjects := semester.subjects + [subject])];
    }

    /** deleteSubject, once confirmed: drop every subject with that id from the list and its
        entry from every date of the current semester's ledger (emptied dates are kept). */
    method DeleteSubject(id: SubjectId)
      requires Valid()
      modifies this
      ensures Valid() && currentSemester == old(currentSemester) && holidays == old(holidays)
      ensures semesters == old(semesters)[currentSemester := Semester(WithoutId(old(SemesterData()).subjects, id), RemoveSubject(old(SemesterData()).attendance, id))]
    {
      var semester := SemesterData();
      var subjects := WithoutId(semester.subjects, id);
      var attendance := semester.attendance;
      var remaining := attendance.Keys;
      while remaining != {}
        invariant remaining <= attendance.Keys && attendance.Keys == semester.attendance.Keys
        invariant forall k :: k in attendance ==>
          attendance[k] == if k in remaining then semester.attendance[k] else semester.attendance[k] - {id}
        decreases remaining
      {
        var date :| date in remaining;
        attendance := attendance[date := attendance[date] - {id}];
        remaining := remaining - {date};
      }
      assert attendance == RemoveSubject(semester.attendance, id);
      semesters := semesters[currentSemester := Semester(subjects, attendance)];
    }

    /** getAttendance. */
    function GetAttendance(sid: SubjectId, key: DateKey): Option<Entry>
      reads this
      requires Valid()
    {
      Lookup(SemesterData().attendance, sid, key)
    }

    /** toggleAttendance, step by step as the source does it: create the date's record and a
        default entry when missing, flip attended, and clear the note on becoming present. */
    method ToggleAttendance(sid: SubjectId, key: DateKey)
      requires Valid()
      modifies this
      ensures Valid() && currentSemester == old(currentSemester) && holidays == old(holidays)
      ensures semesters == old(semesters)[currentSemester := old(SemesterData()).(attendance := Toggle(old(SemesterData()).attendance, sid, key))]
    {
      var semester := SemesterData();
      var attendance := semester.attendance;
      if key !in attendance {
        attendance := attendance[key := map[]];
      }
      if sid !in attendance[key] {
        attendance := attendance[key := attendance[key][sid := NewEntry]];
      }
      var current := attendance[key][sid];
      assert current == Current(semester.attendance, sid, key);
      current := current.(attended := !current.attended);
      if current.attended {
        current := current.(note := "");
      }
      ghost var day := if key in semester.attendance then semester.attendance[key] else map[];
      assert attendance[key] == day[sid := attendance[key][sid]];
      attendance := attendance[key := attendance[key][sid := current]];
      assert attendance[key] == day[sid := current];
      assert attendance == Toggle(semester.attendance, sid, key);
      semesters := semesters[currentSemester := semester.(attendance := attendance)];
    }

    /** saveNote: create the record and a default entry when missing, then set the note as given. */
    method SaveNote(sid: SubjectId, key: DateKey, note: string)
      requires Valid()
      modifies this
      ensures Valid() && currentSemester == old(currentSemester) && holidays == old(holidays)
      ensures semesters == old(semesters)[currentSemester := old(SemesterData()).(attendance := SetNote(old(SemesterData()).attendance, sid, key, note))]
    {
      var semester := SemesterData();
      var attendance := semester.attendance;
      if key !in attendance {
        attendance := attendance[key := map[]];
      }
      if sid !in attendance[key] {
        attendance := attendance[key := attendance[key][sid := NewEntry]];
      }
      assert attendance[key][sid] == Current(semester.attendance, sid, key);
      ghost var day := if key in semester.attendance then semester.attendance[key] else map[];
      assert attendance[key] == day[sid := attendance[key][sid]];
      var updated := attendance[key][sid].(note := note);
      attendance := attendance[key := attendance[key][sid := updated]];
      assert attendance[key] == day[sid := updated];
      assert attendance == SetNote(semester.attendance, sid, key, note);
      semesters := semesters[currentSemester := semester.(attendance := attendance)];
    }

    /** The clear step of a triple click: delete the entry if there is one, and the date's
        record if that empties it. */
    method ClearAttendance(sid: SubjectId, key: DateKey)
      requires Valid()
      modifies this
      ensures Valid() && currentSemester == old(currentSemester) && holidays == old(holidays)
      ensures semesters == old(semesters)[currentSemester := old(SemesterData()).(attendance := ClearEntry(old(SemesterData()).attendance, sid, key))]
    {
      var semester := SemesterData();
      var attendance := semester.attendance;
      if key in attendance && sid in attendance[key] {
        attendance := attendance[key := attendance[key] - {sid}];
        if |attendance[key]| == 0 {
          attendance := attendance - {key};
        }
      }
      assert attendance == ClearEntry(semester.attendance, sid, key);
      semesters := semesters[currentSemester := semester.(attendance := attendance)];
    }

    /** isHoliday. */
    predicate IsHoliday(key: DateKey)
      reads this
    {
      key in holidays
    }

    /** toggleHoliday: delete the key when present, add it otherwise. */
    method ToggleHoliday(key: DateKey)
      modifies this
      ensures holidays == Holidays.Toggle(old(holidays), key)
      ensures currentSemester == old(currentSemester) && semesters == old(semesters)
    {
      if key in holidays {
        holidays := holidays - {key};
      } else {
        holidays := holidays + {key};
      }
    }
  }
}
