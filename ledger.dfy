/** The term store's values: subjects, attendance entries and the sparse
    attendance ledger of a semester (date key -> subject id -> entry), with
    the pure functions that say what each ledger update does. The mutable
    application state that applies them lives in module App. */
module Ledger {
  import opened Wrappers

  type SubjectId = string
  type DateKey = string

  /** One recorded session: present or absent, and the absence note. */
  datatype Entry = Entry(attended: bool, note: string)

  datatype Subject = Subject(id: SubjectId, name: string, code: string)

  type DayRecord = map<SubjectId, Entry>
  type Attendance = map<DateKey, DayRecord>

  /** A semester: its subjects in insertion order and its attendance ledger. */
  datatype Semester = Semester(subjects: seq<Subject>, attendance: Attendance)

  /** The entry toggleAttendance and saveNote create when none is recorded. */
  const NewEntry := Entry(false, "")

  /** What initSemester creates. */
  const EmptySemester := Semester([], map[])

  /** getAttendance: the entry recorded for a subject on a date, if any. */
  function Lookup(att: Attendance, sid: SubjectId, key: DateKey): Option<Entry>
  {
    if key in att && sid in att[key] then Some(att[key][sid]) else None
  }

  /** The recorded entry, or the default one that an update would create first. */
  function Current(att: Attendance, sid: SubjectId, key: DateKey): Entry
  {
    match Lookup(att, sid, key)
    case Some(e) => e
    case None => NewEntry
  }

  /** Stores an entry, creating the date's record when it is missing. */
  function Put(att: Attendance, sid: SubjectId, key: DateKey, e: Entry): (r: Attendance)
    ensures Lookup(r, sid, key) == Some(e)
    ensures forall k, s {:trigger Lookup(r, s, k)} :: (k != key || s != sid) ==> Lookup(r, s, k) == Lookup(att, s, k)
    ensures r.Keys == att.Keys + {key}
    ensures forall k {:trigger r[k]} :: k in att && k != key ==> r[k] == att[k]
  {
    var day := if key in att then att[key] else map[];
    att[key := day[sid := e]]
  }

  /** toggleAttendance: flip attended on the (possibly new) entry; becoming present clears the note. */
  function Toggle(att: Attendance, sid: SubjectId, key: DateKey): (r: Attendance)
    ensures Lookup(r, sid, key).Some?
    ensures Lookup(r, sid, key).value.attended == !Current(att, sid, key).attended
    ensures Lookup(r, sid, key).value.attended ==> Lookup(r, sid, key).value.note == ""
    ensures !Lookup(r, sid, key).value.attended ==> Lookup(r, sid, key).value.note == Current(att, sid, key).note
    ensures forall k, s {:trigger Lookup(r, s, k)} :: (k != key || s != sid) ==> Lookup(r, s, k) == Lookup(att, s, k)
    ensures r.Keys == att.Keys + {key}
    ensures forall k {:trigger r[k]} :: k in att && k != key ==> r[k] == att[k]
  {
    var cur := Current(att, sid, key);
    var flipped := cur.(attended := !cur.attended);
    Put(att, sid, key, if flipped.attended then flipped.(note := "") else flipped)
  }

  /** saveNote: set the note verbatim on the (possibly new) entry, even on a present one. */
  function SetNote(att: Attendance, sid: SubjectId, key: DateKey, note: string): (r: Attendance)
    ensures Lookup(r, sid, key) == Some(Entry(Current(att, sid, key).attended, note))
    ensures forall k, s {:trigger Lookup(r, s, k)} :: (k != key || s != sid) ==> Lookup(r, s, k) == Lookup(att, s, k)
    ensures r.Keys == att.Keys + {key}
    ensures forall k {:trigger r[k]} :: k in att && k != key ==> r[k] == att[k]
  {
    Put(att, sid, key, Current(att, sid, key).(note := note))
  }

  /** The attendance cascade of deleteSubject: the subject's entry goes from every date, dates stay. */
  function RemoveSubject(att: Attendance, sid: SubjectId): (r: Attendance)
    ensures r.Keys == att.Keys
    ensures forall k, s {:trigger Lookup(r, s, k)} :: Lookup(r, s, k) == if s == sid then None else Lookup(att, s, k)
  {
    map k | k in att :: att[k] - {sid}
  }

  /** The triple-click clear: delete one entry, and the date's record too if that leaves it empty. */
  function ClearEntry(att: Attendance, sid: SubjectId, key: DateKey): (r: Attendance)
    ensures Lookup(r, sid, key) == None
    ensures forall k, s {:trigger Lookup(r, s, k)} :: (k != key || s != sid) ==> Lookup(r, s, k) == Lookup(att, s, k)
    ensures key in r <==> key in att && (sid !in att[key] || att[key].Keys != {sid})
    ensures forall k {:trigger k in r} :: k != key ==> (k in r <==> k in att)
    ensures forall k {:trigger r[k]} :: k in att && k != key ==> r[k] == att[k]
  {
    if key in att && sid in att[key] then
      var day := att[key] - {sid};
      if |day| == 0 then att - {key} else att[key := day]
    else att
  }

  /** No date keeps an empty record. */
  predicate NoEmptyDays(att: Attendance)
  {
    forall k :: k in att ==> |att[k]| > 0
  }

  lemma NonEmptyRecord(day: DayRecord, sid: SubjectId)
    requires sid in day
    ensures |day| > 0
  {
    assert sid in day.Keys;
  }

  /** Toggling and saving a note never leave an empty record, and clearing prunes the record
      it empties, so none of them introduces an empty date record. */
  lemma ToggleKeepsNoEmptyDays(att: Attendance, sid: SubjectId, key: DateKey)
    requires NoEmptyDays(att)
    ensures NoEmptyDays(Toggle(att, sid, key))
  {
    var t := Toggle(att, sid, key);
    assert Lookup(t, sid, key).Some?;
    NonEmptyRecord(t[key], sid);
  }

  lemma SetNoteKeepsNoEmptyDays(att: Attendance, sid: SubjectId, key: DateKey, note: string)
    requires NoEmptyDays(att)
    ensures NoEmptyDays(SetNote(att, sid, key, note))
  {
    var n := SetNote(att, sid, key, note);
    assert Lookup(n, sid, key).Some?;
    NonEmptyRecord(n[key], sid);
  }

  lemma ClearKeepsNoEmptyDays(att: Attendance, sid: SubjectId, key: DateKey)
    requires NoEmptyDays(att)
    ensures NoEmptyDays(ClearEntry(att, sid, key))
  {
    var c := ClearEntry(att, sid, key);
    if key in att && sid in att[key] {
      var day := att[key] - {sid};
      assert key in c ==> c[key] == day && |day| != 0;
    }
  }

  /** Deleting a subject can leave empty date records behind (they are not pruned). */
  lemma RemoveSubjectKeepsEmptyDays()
    ensures var att := map["2026-01-26" := map["1" := NewEntry]];
            RemoveSubject(att, "1") == map["2026-01-26" := map[]]
  {
    var att := map["2026-01-26" := map["1" := NewEntry]];
    var r := RemoveSubject(att, "1");
    assert r["2026-01-26"] == map[];
  }

  /** Toggling twice restores attended (an untracked cell becomes a recorded absence),
      and the note is gone either way, because one of the two toggles marked it present. */
  lemma ToggleTwice(att: Attendance, sid: SubjectId, key: DateKey)
    ensures Lookup(Toggle(Toggle(att, sid, key), sid, key), sid, key) == Some(Entry(Current(att, sid, key).attended, ""))
  {
    var once := Toggle(att, sid, key);
    assert Current(once, sid, key) == Lookup(once, sid, key).value;
  }

  /** Toggling a cell and then clearing it leaves no entry and every other cell as it was. */
  lemma ToggleThenClear(att: Attendance, sid: SubjectId, key: DateKey, k: DateKey, s: SubjectId)
    ensures Lookup(ClearEntry(Toggle(att, sid, key), sid, key), s, k) == if k == key && s == sid then None else Lookup(att, s, k)
  {
  }

  // ---------------------------------------------------------------------
  // Subjects

  /** ECMAScript WhiteSpace and LineTerminator characters, which String.prototype.trim removes. */
  predicate IsJsWhitespace(ch: char)
  {
    ch == '\t' || ch == '\n' || ch == '\U{B}' || ch == '\U{C}' || ch == '\r' || ch == ' '
    || ch == '\U{A0}' || ch == '\U{1680}' || ('\U{2000}' <= ch <= '\U{200A}')
    || ch == '\U{2028}' || ch == '\U{2029}' || ch == '\U{202F}' || ch == '\U{205F}'
    || ch == '\U{3000}' || ch == '\U{FEFF}'
  }

  function TrimStart(s: string): (r: string)
    ensures |r| <= |s| && r == s[|s| - |r|..]
    ensures forall i :: 0 <= i < |s| - |r| ==> IsJsWhitespace(s[i])
    ensures r != [] ==> !IsJsWhitespace(r[0])
  {
    if s != [] && IsJsWhitespace(s[0]) then TrimStart(s[1..]) else s
  }

  function TrimEnd(s: string): (r: string)
    ensures |r| <= |s| && r == s[..|r|]
    ensures forall i :: |r| <= i < |s| ==> IsJsWhitespace(s[i])
    ensures r != [] ==> !IsJsWhitespace(r[|r| - 1])
  {
    if s != [] && IsJsWhitespace(s[|s| - 1]) then TrimEnd(s[..|s| - 1]) else s
  }

  /** String.prototype.trim. */
  function Trim(s: string): string
  {
    TrimEnd(TrimStart(s))
  }

  lemma {:induction false} TrimStartAllWhitespace(s: string)
    requires forall i :: 0 <= i < |s| ==> IsJsWhitespace(s[i])
    ensures TrimStart(s) == []
  {
    if s != [] {
      TrimStartAllWhitespace(s[1..]);
    }
  }

  /** trim yields the empty string exactly when every character is whitespace. */
  lemma TrimEmpty(s: string)
    ensures Trim(s) == [] <==> forall i :: 0 <= i < |s| ==> IsJsWhitespace(s[i])
  {
    var a := TrimStart(s);
    if forall i :: 0 <= i < |s| ==> IsJsWhitespace(s[i]) {
      TrimStartAllWhitespace(s);
    }
    if Trim(s) == [] {
      assert a == [];
    }
  }

  /** A non-empty trim result is a slice of the input with no whitespace at either end. */
  lemma TrimSlice(s: string)
    ensures var lo := |s| - |TrimStart(s)|; Trim(s) == s[lo..lo + |Trim(s)|]
    ensures Trim(s) != [] ==> !IsJsWhitespace(Trim(s)[0]) && !IsJsWhitespace(Trim(s)[|Trim(s)| - 1])
  {
    TrimIsSlice(s);
    TrimEnds(s);
  }

  lemma TrimIsSlice(s: string)
    ensures var lo := |s| - |TrimStart(s)|; Trim(s) == s[lo..lo + |Trim(s)|]
  {
    var a := TrimStart(s);
    var r := TrimEnd(a);
    var lo := |s| - |a|;
    SliceOfSuffix(s, lo, |r|);
  }

  lemma TrimEnds(s: string)
    ensures Trim(s) != [] ==> !IsJsWhitespace(Trim(s)[0]) && !IsJsWhitespace(Trim(s)[|Trim(s)| - 1])
  {
    var a := TrimStart(s);
    var r := TrimEnd(a);
    if r != [] {
      assert r[0] == a[0];
    }
  }

  lemma SliceOfSuffix(s: string, lo: nat, n: nat)
    requires lo + n <= |s|
    ensures s[lo..][..n] == s[lo..lo + n]
  {
  }

  /** The subject list after deleteSubject's filter: every subject with that id is gone,
      the others stay in their order. */
  function WithoutId(subjects: seq<Subject>, id: SubjectId): (r: seq<Subject>)
    ensures forall s :: s in r <==> s in subjects && s.id != id
    ensures |r| <= |subjects|
    ensures (forall i :: 0 <= i < |subjects| ==> subjects[i].id != id) ==> r == subjects
  {
    if subjects == [] then []
    else (if subjects[0].id == id then [] else [subjects[0]]) + WithoutId(subjects[1..], id)
  }

  /** The filter of a single subject keeps it exactly when its id differs. */
  lemma WithoutIdSingle(s: Subject, id: SubjectId)
    ensures WithoutId([s], id) == if s.id != id then [s] else []
  {
    assert [s][1..] == [];
  }

  /** Filtering distributes over concatenation. With WithoutIdSingle, this fixes the result as
      the kept subjects in their original order and with their multiplicity. */
  lemma {:induction false} WithoutIdAppend(a: seq<Subject>, b: seq<Subject>, id: SubjectId)
    ensures WithoutId(a + b, id) == WithoutId(a, id) + WithoutId(b, id)
    decreases |a|
  {
    if a == [] {
      assert a + b == b;
    } else {
      WithoutIdAppend(a[1..], b, id);
      WithoutIdAppendStep(a, b, id);
    }
  }

  /** The inductive step of WithoutIdAppend: the first subject of a is kept or dropped in front. */
  lemma WithoutIdAppendStep(a: seq<Subject>, b: seq<Subject>, id: SubjectId)
    requires a != []
    requires WithoutId(a[1..] + b, id) == WithoutId(a[1..], id) + WithoutId(b, id)
    ensures WithoutId(a + b, id) == WithoutId(a, id) + WithoutId(b, id)
  {
    WithoutIdConsAppend(a, b, id);
    WithoutIdCons(a, id);
    SubjectsAssoc(Kept(a[0], id), WithoutId(a[1..], id), WithoutId(b, id));
  }

  /** What the filter keeps of one subject. */
  function Kept(s: Subject, id: SubjectId): seq<Subject>
  {
    if s.id == id then [] else [s]
  }

  /** One unfolding of WithoutId. */
  lemma WithoutIdCons(x: seq<Subject>, id: SubjectId)
    requires x != []
    ensures WithoutId(x, id) == Kept(x[0], id) + WithoutId(x[1..], id)
  {
  }

  /** One unfolding of WithoutId on a concatenation with a non-empty first part. */
  lemma WithoutIdConsAppend(a: seq<Subject>, b: seq<Subject>, id: SubjectId)
    requires a != []
    ensures WithoutId(a + b, id) == Kept(a[0], id) + WithoutId(a[1..] + b, id)
  {
    var ab := a + b;
    assert ab[0] == a[0] && ab[1..] == a[1..] + b;
    WithoutIdCons(ab, id);
  }

  lemma SubjectsAssoc(h: seq<Subject>, x: seq<Subject>, y: seq<Subject>)
    ensures h + (x + y) == h + x + y
  {
  }
}
