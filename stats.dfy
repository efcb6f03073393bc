/** The statistics engine: subject weights (labs count double), the rounded
    percentage, the status thresholds, and the subject, overall and period
    statistics. Each statistic is a method that accumulates counters in a
    loop, as the source does, proved equal to a specification stated with
    sets of dates (subject statistics) or sums over sequences (overall and
    period statistics). */
module Stats {
  import opened Wrappers
  import opened Ledger
  import Calendar

  // ---------------------------------------------------------------------
  // Status thresholds

  datatype Status = Good | Warning | Critical

  /** getStatusClass. */
  function StatusClass(percentage: int): (s: Status)
    ensures s == Good <==> percentage >= 85
    ensures s == Warning <==> 75 <= percentage < 85
    ensures s == Critical <==> percentage < 75
  {
    if percentage >= 85 then Good else if percentage >= 75 then Warning else Critical
  }

  function Rank(s: Status): int
  {
    match s
    case Critical => 0
    case Warning => 1
    case Good => 2
  }

  /** A higher percentage never gets a worse status. */
  lemma StatusMonotone(p: int, q: int)
    requires p <= q
    ensures Rank(StatusClass(p)) <= Rank(StatusClass(q))
  {
  }

  lemma StatusThresholds()
    ensures StatusClass(85) == Good && StatusClass(84) == Warning
    ensures StatusClass(75) == Warning && StatusClass(74) == Critical
  {
  }

  // ---------------------------------------------------------------------
  // Subject weights

  /** String.prototype.toUpperCase on one character, for the ASCII letters. */
  function UpperChar(ch: char): char
  {
    if 'a' <= ch <= 'z' then (ch as int - 32) as char else ch
  }

  /** String.prototype.toUpperCase, for the ASCII letters. */
  function UpperAscii(s: string): string
  {
    if s == [] then [] else [UpperChar(s[0])] + UpperAscii(s[1..])
  }

  /** Upper-casing keeps the length and maps each character on its own. */
  lemma {:induction false} UpperAsciiAt(s: string)
    ensures |UpperAscii(s)| == |s| && forall i :: 0 <= i < |s| ==> UpperAscii(s)[i] == UpperChar(s[i])
  {
    if s != [] {
      UpperAsciiAt(s[1..]);
    }
  }

  /** pat occurs in s starting at position i. */
  predicate OccursAt(s: string, pat: string, i: int)
  {
    0 <= i && i + |pat| <= |s| && s[i..i + |pat|] == pat
  }

  /** String.prototype.includes, as a left-to-right search. */
  function Includes(s: string, pat: string): bool
    decreases |s|
  {
    if |s| < |pat| then false
    else if s[..|pat|] == pat then true
    else Includes(s[1..], pat)
  }

  /** The search finds pat exactly when pat occurs somewhere in s. */
  lemma {:induction false} IncludesIff(s: string, pat: string)
    ensures Includes(s, pat) <==> exists i :: OccursAt(s, pat, i)
    decreases |s|
  {
    if |s| >= |pat| {
      if s[..|pat|] == pat {
        assert OccursAt(s, pat, 0);
      } else {
        IncludesTail(s, pat);
        IncludesIff(s[1..], pat);
      }
    }
  }

  /** When pat does not start s, it occurs in s exactly when it occurs in s's tail. */
  lemma IncludesTail(s: string, pat: string)
    requires |s| >= |pat| && s[..|pat|] != pat
    ensures (exists i :: OccursAt(s, pat, i)) <==> (exists j :: OccursAt(s[1..], pat, j))
  {
    forall j | 0 <= j
      ensures OccursAt(s[1..], pat, j) <==> OccursAt(s, pat, j + 1)
    {
      if j + |pat| <= |s| - 1 {
        assert s[1..][j..j + |pat|] == s[j + 1..j + 1 + |pat|];
      }
    }
    if exists i :: OccursAt(s, pat, i) {
      var i :| OccursAt(s, pat, i);
      assert i != 0;
      assert OccursAt(s[1..], pat, i - 1);
    }
  }

  /** "lab" in any mix of cases at position i of the name. */
  predicate LabAt(name: string, i: int)
  {
    0 <= i && i + 3 <= |name| &&
    (name[i] == 'l' || name[i] == 'L') && (name[i + 1] == 'a' || name[i + 1] == 'A') && (name[i + 2] == 'b' || name[i + 2] == 'B')
  }

  lemma UpperCharIs(ch: char, upper: char, lower: char)
    requires 'A' <= upper <= 'Z' && lower as int == upper as int + 32
    ensures UpperChar(ch) == upper <==> ch == upper || ch == lower
  {
  }

  /** "LAB" occurs at position i of the upper-cased name exactly when "lab" does in any case. */
  lemma LabAtUpper(name: string, i: int)
    ensures OccursAt(UpperAscii(name), "LAB", i) <==> LabAt(name, i)
  {
    var u := UpperAscii(name);
    UpperAsciiAt(name);
    if 0 <= i && i + 3 <= |name| {
      UpperCharIs(name[i], 'L', 'l');
      UpperCharIs(name[i + 1], 'A', 'a');
      UpperCharIs(name[i + 2], 'B', 'b');
      assert u[i..i + 3] == [u[i], u[i + 1], u[i + 2]];
    }
  }

  /** A name's upper-cased form contains "LAB" exactly when "lab" occurs in it in any case. */
  lemma LabAnyCase(name: string)
    ensures Includes(UpperAscii(name), "LAB") <==> exists i :: LabAt(name, i)
  {
    IncludesIff(UpperAscii(name), "LAB");
    forall i
      ensures OccursAt(UpperAscii(name), "LAB", i) <==> LabAt(name, i)
    {
      LabAtUpper(name, i);
    }
  }

  /** Position i holds the first subject with that id. */
  predicate FirstWithId(subjects: seq<Subject>, id: SubjectId, i: int)
  {
    0 <= i < |subjects| && subjects[i].id == id && forall j :: 0 <= j < i ==> subjects[j].id != id
  }

  lemma FirstWithIdUnique(subjects: seq<Subject>, id: SubjectId, i: int, i': int)
    requires FirstWithId(subjects, id, i) && FirstWithId(subjects, id, i')
    ensures i == i'
  {
  }

  /** subjects.find: the first subject with that id. */
  function FindSubject(subjects: seq<Subject>, id: SubjectId): Option<Subject>
  {
    if subjects == [] then None
    else if subjects[0].id == id then Some(subjects[0])
    else FindSubject(subjects[1..], id)
  }

  /** find fails exactly when no subject has the id, and otherwise returns the first one that does. */
  lemma {:induction false} FindSubjectSpec(subjects: seq<Subject>, id: SubjectId)
    ensures FindSubject(subjects, id).None? <==> forall i :: 0 <= i < |subjects| ==> subjects[i].id != id
    ensures FindSubject(subjects, id).Some? ==> exists i :: FirstWithId(subjects, id, i) && subjects[i] == FindSubject(subjects, id).value
  {
    if subjects != [] && subjects[0].id != id {
      var rest := FindSubject(subjects[1..], id);
      FindSubjectSpec(subjects[1..], id);
      assert forall i :: 1 <= i < |subjects| ==> subjects[i] == subjects[1..][i - 1];
      if rest.Some? {
        var i :| FirstWithId(subjects[1..], id, i) && subjects[1..][i] == rest.value;
        assert FirstWithId(subjects, id, i + 1);
      }
    } else if subjects != [] {
      assert FirstWithId(subjects, id, 0);
    }
  }

  /** isLabSubject: the subject exists and its upper-cased name contains "LAB". */
  predicate IsLabSubject(subjects: seq<Subject>, id: SubjectId)
  {
    match FindSubject(subjects, id)
    case Some(s) => Includes(UpperAscii(s.name), "LAB")
    case None => false
  }

  /** getSubjectWeight. */
  function SubjectWeight(subjects: seq<Subject>, id: SubjectId): (w: nat)
  {
    if IsLabSubject(subjects, id) then 2 else 1
  }

  /** The weight is 2 exactly when the first subject with the id has "lab" in its name in
      any case, and 1 otherwise, in particular for an id that names no subject. */
  lemma WeightRule(subjects: seq<Subject>, id: SubjectId)
    ensures SubjectWeight(subjects, id) == 1 || SubjectWeight(subjects, id) == 2
    ensures SubjectWeight(subjects, id) == 2 <==>
      exists i, p :: FirstWithId(subjects, id, i) && LabAt(subjects[i].name, p)
    ensures (forall i :: 0 <= i < |subjects| ==> subjects[i].id != id) ==> SubjectWeight(subjects, id) == 1
  {
    var found := FindSubject(subjects, id);
    FindSubjectSpec(subjects, id);
    if found.Some? {
      LabAnyCase(found.value.name);
      var i :| FirstWithId(subjects, id, i) && subjects[i] == found.value;
      forall i', p | FirstWithId(subjects, id, i') && LabAt(subjects[i'].name, p)
        ensures LabAt(found.value.name, p)
      {
        FirstWithIdUnique(subjects, id, i, i');
      }
    } else {
      assert forall i :: !FirstWithId(subjects, id, i);
    }
  }

  // ---------------------------------------------------------------------
  // Percentages

  /** Math.round(attended / total * 100) in exact integers (round half up), 0 when there is
      nothing to count. */
  function Percentage(attended: int, total: int): (p: int)
    ensures total <= 0 ==> p == 0
    ensures 0 <= attended <= total ==> 0 <= p <= 100
  {
    if total > 0 then
      var p := (200 * attended + total) / (2 * total);
      PercentageRange(attended, total);
      p
    else 0
  }

  lemma DivBounds(n: int, d: int)
    requires d > 0
    ensures d * (n / d) <= n < d * (n / d) + d
  {
  }

  lemma MulStrict(d: int, x: int, y: int)
    requires d > 0 && d * x < d * y
    ensures x < y
  {
    assert d * x - d * y == d * (x - y);
  }

  lemma PercentageRange(attended: int, total: int)
    requires 0 < total
    ensures 0 <= attended <= total ==> 0 <= (200 * attended + total) / (2 * total) <= 100
  {
    var n, d := 200 * attended + total, 2 * total;
    var p := n / d;
    DivBounds(n, d);
    if 0 <= attended <= total {
      assert d * -1 < d * p by {
        assert d * p + d > n >= 0;
      }
      MulStrict(d, -1, p);
      assert d * p < d * 101 by {
        assert d * p <= n <= 201 * total;
      }
      MulStrict(d, p, 101);
    }
  }

  /** The percentage is 100 * attended / total rounded to the nearest integer, halves upward:
      the exact value lies in [p - 1/2, p + 1/2). */
  lemma PercentageRounds(attended: int, total: int)
    requires total > 0
    ensures var p := Percentage(attended, total);
            2 * total * p <= 200 * attended + total < 2 * total * p + 2 * total
  {
    DivBounds(200 * attended + total, 2 * total);
  }

  /** The record returned by the stats functions. */
  datatype Stats = Stats(attended: int, missed: int, total: int, percentage: int)

  function MakeStats(attended: int, total: int): Stats
  {
    Stats(attended, total - attended, total, Percentage(attended, total))
  }

  /** What every statistics record promises: missed is total minus attended, attended lies
      between 0 and total, and the percentage lies in 0..100 (0 when nothing was counted). */
  predicate Consistent(s: Stats)
  {
    && s.missed == s.total - s.attended && 0 <= s.attended <= s.total
    && 0 <= s.percentage <= 100 && (s.total == 0 ==> s.percentage == 0)
  }

  /** Weighted attended and total counts. */
  datatype Tally = Tally(attended: int, total: int)

  function Plus(a: Tally, b: Tally): Tally
  {
    Tally(a.attended + b.attended, a.total + b.total)
  }

  predicate Sane(t: Tally)
  {
    0 <= t.attended <= t.total
  }

  /** n entries of a subject, weighted: a lab's entries count twice. */
  function Weighted(subjects: seq<Subject>, sid: SubjectId, n: nat): nat
  {
    if IsLabSubject(subjects, sid) then n + n else n
  }

  lemma WeightedIsProduct(subjects: seq<Subject>, sid: SubjectId, n: nat)
    ensures Weighted(subjects, sid, n) == SubjectWeight(subjects, sid) * n
  {
  }

  /** One subject's weighted contribution on one date: its weight to total when it has an entry,
      and to attended too when that entry is present. */
  function Contribution(semester: Semester, sid: SubjectId, key: DateKey): Tally
  {
    var w := SubjectWeight(semester.subjects, sid);
    match Lookup(semester.attendance, sid, key)
    case Some(e) => Tally(if e.attended then w else 0, w)
    case None => Tally(0, 0)
  }

  // ---------------------------------------------------------------------
  // Subject statistics

  /** A date that a subject's statistics count: the subject has an entry on it and it is not
      a holiday being skipped. */
  predicate Counted(att: Attendance, holidays: set<DateKey>, sid: SubjectId, excludeHolidays: bool, k: DateKey)
  {
    k in att && sid in att[k] && !(excludeHolidays && k in holidays)
  }

  function CountedDates(att: Attendance, holidays: set<DateKey>, sid: SubjectId, excludeHolidays: bool, among: set<DateKey>): set<DateKey>
  {
    set k | k in among && Counted(att, holidays, sid, excludeHolidays, k)
  }

  function AttendedDates(att: Attendance, holidays: set<DateKey>, sid: SubjectId, excludeHolidays: bool, among: set<DateKey>): set<DateKey>
  {
    set k | k in among && Counted(att, holidays, sid, excludeHolidays, k) && att[k][sid].attended
  }

  /** What calculateSubjectStats counts over the dates `among`: the weight times the number of
      counted dates, and the weight times the number of those marked attended. */
  function SubjectTally(semester: Semester, holidays: set<DateKey>, sid: SubjectId, excludeHolidays: bool, among: set<DateKey>): Tally
  {
    Tally(Weighted(semester.subjects, sid, |AttendedDates(semester.attendance, holidays, sid, excludeHolidays, among)|),
          Weighted(semester.subjects, sid, |CountedDates(semester.attendance, holidays, sid, excludeHolidays, among)|))
  }

  lemma SubsetCard(a: set<DateKey>, c: set<DateKey>)
    requires a <= c
    ensures |a| <= |c|
  {
    assert c == a + (c - a);
  }

  lemma SubjectTallySane(semester: Semester, holidays: set<DateKey>, sid: SubjectId, excludeHolidays: bool, among: set<DateKey>)
    ensures Sane(SubjectTally(semester, holidays, sid, excludeHolidays, among))
  {
    var a := AttendedDates(semester.attendance, holidays, sid, excludeHolidays, among);
    var c := CountedDates(semester.attendance, holidays, sid, excludeHolidays, among);
    SubsetCard(a, c);
  }

  /** Adding a date to `among` adds it to the counted (and attended) dates exactly when it counts. */
  lemma CountStep(att: Attendance, holidays: set<DateKey>, sid: SubjectId, excludeHolidays: bool, among: set<DateKey>, k: DateKey)
    requires k !in among
    ensures var counted := Counted(att, holidays, sid, excludeHolidays, k);
            && |CountedDates(att, holidays, sid, excludeHolidays, among + {k})| ==
               |CountedDates(att, holidays, sid, excludeHolidays, among)| + (if counted then 1 else 0)
            && |AttendedDates(att, holidays, sid, excludeHolidays, among + {k})| ==
               |AttendedDates(att, holidays, sid, excludeHolidays, among)| + (if counted && att[k][sid].attended then 1 else 0)
  {
    var counted := Counted(att, holidays, sid, excludeHolidays, k);
    var c0 := CountedDates(att, holidays, sid, excludeHolidays, among);
    var c1 := CountedDates(att, holidays, sid, excludeHolidays, among + {k});
    var a0 := AttendedDates(att, holidays, sid, excludeHolidays, among);
    var a1 := AttendedDates(att, holidays, sid, excludeHolidays, among + {k});
    if counted {
      assert c1 == c0 + {k};
      if att[k][sid].attended {
        assert a1 == a0 + {k};
      } else {
        assert a1 == a0;
      }
    } else {
      assert c1 == c0;
      assert a1 == a0;
    }
  }

  /** Adding one more date to `among` adds the subject's weight to total when the date counts,
      and to attended too when its entry is present. */
  lemma CountedStep(semester: Semester, holidays: set<DateKey>, sid: SubjectId, excludeHolidays: bool, among: set<DateKey>, k: DateKey)
    requires k !in among
    ensures var before, after := SubjectTally(semester, holidays, sid, excludeHolidays, among), SubjectTally(semester, holidays, sid, excludeHolidays, among + {k});
            var w, counted := SubjectWeight(semester.subjects, sid), Counted(semester.attendance, holidays, sid, excludeHolidays, k);
            && after.total == before.total + (if counted then w else 0)
            && after.attended == before.attended + (if counted && semester.attendance[k][sid].attended then w else 0)
  {
    CountStep(semester.attendance, holidays, sid, excludeHolidays, among, k);
  }

  /** Adding one more date to `among` adds that date's weighted contribution. */
  lemma TallyStep(semester: Semester, holidays: set<DateKey>, sid: SubjectId, excludeHolidays: bool, among: set<DateKey>, k: DateKey)
    requires k !in among
    ensures SubjectTally(semester, holidays, sid, excludeHolidays, among + {k}) ==
            Plus(SubjectTally(semester, holidays, sid, excludeHolidays, among),
                 if excludeHolidays && k in holidays then Tally(0, 0) else Contribution(semester, sid, k))
  {
    CountStep(semester.attendance, holidays, sid, excludeHolidays, among, k);
  }

  /** The per-date step of calculateSubjectStats: a holiday being skipped adds nothing;
      otherwise an entry of the subject adds the weight to total, and to attended when present. */
  method CountDate(semester: Semester, holidays: set<DateKey>, sid: SubjectId, excludeHolidays: bool, weight: nat,
                   dateStr: DateKey, attended0: int, total0: int) returns (attended: int, total: int)
    requires dateStr in semester.attendance
    ensures var att := semester.attendance;
            var counted := Counted(att, holidays, sid, excludeHolidays, dateStr);
            && total == total0 + (if counted then weight else 0)
            && attended == attended0 + (if counted && att[dateStr][sid].attended then weight else 0)
  {
    attended, total := attended0, total0;
    if excludeHolidays && dateStr in holidays {
      return;
    }
    if sid in semester.attendance[dateStr] {
      total := total + weight;
      if semester.attendance[dateStr][sid].attended {
        attended := attended + weight;
      }
    }
  }

  /** calculateSubjectStats: walk the semester's dates, skip holidays when asked, and add the
      subject's weight to total for each entry and to attended for each present entry. */
  method SubjectStats(semester: Semester, holidays: set<DateKey>, sid: SubjectId, excludeHolidays: bool) returns (stats: Stats)
    ensures var t := SubjectTally(semester, holidays, sid, excludeHolidays, semester.attendance.Keys);
            stats == MakeStats(t.attended, t.total)
  {
    var att := semester.attendance;
    var weight := SubjectWeight(semester.subjects, sid);
    var attended, total := 0, 0;
    var remaining := att.Keys;
    ghost var seen: set<DateKey> := {};
    while remaining != {}
      invariant remaining + seen == att.Keys && remaining !! seen
      invariant attended == SubjectTally(semester, holidays, sid, excludeHolidays, seen).attended
      invariant total == SubjectTally(semester, holidays, sid, excludeHolidays, seen).total
      decreases remaining
    {
      var dateStr :| dateStr in remaining;
      CountedStep(semester, holidays, sid, excludeHolidays, seen, dateStr);
      attended, total := CountDate(semester, holidays, sid, excludeHolidays, weight, dateStr, attended, total);
      remaining := remaining - {dateStr};
      seen := seen + {dateStr};
    }
    stats := MakeStats(attended, total);
  }

  /** The subject statistics are consistent. */
  lemma SubjectStatsConsistent(semester: Semester, holidays: set<DateKey>, sid: SubjectId, excludeHolidays: bool)
    ensures var t := SubjectTally(semester, holidays, sid, excludeHolidays, semester.attendance.Keys);
            Consistent(MakeStats(t.attended, t.total))
  {
    SubjectTallySane(semester, holidays, sid, excludeHolidays, semester.attendance.Keys);
  }

  /** A holiday is skipped by the default statistics even though its entry stays in the ledger,
      and the statistics that include holidays do not depend on the registry. */
  lemma HolidayExcluded(semester: Semester, holidays: set<DateKey>, sid: SubjectId, k: DateKey)
    requires k in semester.attendance && sid in semester.attendance[k] && k !in holidays
    ensures var keys := semester.attendance.Keys;
            var w := SubjectWeight(semester.subjects, sid);
            SubjectTally(semester, holidays + {k}, sid, true, keys).total == SubjectTally(semester, holidays, sid, true, keys).total - w
    ensures var keys := semester.attendance.Keys;
            SubjectTally(semester, holidays + {k}, sid, false, keys) == SubjectTally(semester, holidays, sid, false, keys)
  {
    var att, keys := semester.attendance, semester.attendance.Keys;
    var before := CountedDates(att, holidays, sid, true, keys);
    var after := CountedDates(att, holidays + {k}, sid, true, keys);
    assert after == before - {k};
    assert k in before;
    assert CountedDates(att, holidays + {k}, sid, false, keys) == CountedDates(att, holidays, sid, false, keys);
    assert AttendedDates(att, holidays + {k}, sid, false, keys) == AttendedDates(att, holidays, sid, false, keys);
  }

  // ---------------------------------------------------------------------
  // Overall statistics

  /** The sum of the first n subjects' holiday-excluding tallies over the dates `among`, in list
      order. */
  function SubjectsTally(semester: Semester, holidays: set<DateKey>, n: nat, among: set<DateKey>): Tally
    requires n <= |semester.subjects|
  {
    if n == 0 then Tally(0, 0)
    else Plus(SubjectsTally(semester, holidays, n - 1, among), SubjectTally(semester, holidays, semester.subjects[n - 1].id, true, among))
  }

  lemma {:induction false} SubjectsTallySane(semester: Semester, holidays: set<DateKey>, n: nat, among: set<DateKey>)
    requires n <= |semester.subjects|
    ensures Sane(SubjectsTally(semester, holidays, n, among))
  {
    if n != 0 {
      SubjectsTallySane(semester, holidays, n - 1, among);
      SubjectTallySane(semester, holidays, semester.subjects[n - 1].id, true, among);
    }
  }

  /** calculateOverallStats: add up every subject's statistics and compute one percentage
      from the summed counts (not the mean of the subjects' percentages). */
  method OverallStats(semester: Semester, holidays: set<DateKey>) returns (stats: Stats, subjectCount: nat)
    ensures var t := SubjectsTally(semester, holidays, |semester.subjects|, semester.attendance.Keys);
            stats == MakeStats(t.attended, t.total)
    ensures subjectCount == |semester.subjects|
  {
    var totalAttended, totalClasses := 0, 0;
    for i := 0 to |semester.subjects|
      invariant Tally(totalAttended, totalClasses) == SubjectsTally(semester, holidays, i, semester.attendance.Keys)
    {
      var subjectStats := SubjectStats(semester, holidays, semester.subjects[i].id, true);
      totalAttended := totalAttended + subjectStats.attended;
      totalClasses := totalClasses + subjectStats.total;
    }
    stats := MakeStats(totalAttended, totalClasses);
    subjectCount := |semester.subjects|;
  }

  /** The overall statistics are consistent. */
  lemma OverallStatsConsistent(semester: Semester, holidays: set<DateKey>)
    ensures var t := SubjectsTally(semester, holidays, |semester.subjects|, semester.attendance.Keys);
            Consistent(MakeStats(t.attended, t.total))
  {
    SubjectsTallySane(semester, holidays, |semester.subjects|, semester.attendance.Keys);
  }

  // ---------------------------------------------------------------------
  // Period statistics

  /** What one date contributes over the first n subjects: each subject with an entry adds its
      weight to total, and to attended when present. */
  function DayTally(semester: Semester, key: DateKey, n: nat): Tally
    requires n <= |semester.subjects|
  {
    if n == 0 then Tally(0, 0)
    else Plus(DayTally(semester, key, n - 1), Contribution(semester, semester.subjects[n - 1].id, key))
  }

  /** The date strings of a sequence of days, in order. */
  function DateKeys(dates: seq<Calendar.Day>): (keys: seq<DateKey>)
    ensures |keys| == |dates| && forall i {:trigger dates[i]} :: 0 <= i < |dates| ==> keys[i] == Calendar.DateKey(dates[i])
  {
    seq(|dates|, i requires 0 <= i < |dates| => Calendar.DateKey(dates[i]))
  }

  /** What the first n dates contribute: holidays add nothing, other dates their DayTally over
      all subjects. */
  function PeriodTally(semester: Semester, holidays: set<DateKey>, keys: seq<DateKey>, n: nat): Tally
    requires n <= |keys|
  {
    if n == 0 then Tally(0, 0)
    else
      var before := PeriodTally(semester, holidays, keys, n - 1);
      if keys[n - 1] in holidays then before else Plus(before, DayTally(semester, keys[n - 1], |semester.subjects|))
  }

  lemma {:induction false} DayTallySane(semester: Semester, key: DateKey, n: nat)
    requires n <= |semester.subjects|
    ensures Sane(DayTally(semester, key, n))
  {
    if n != 0 {
      DayTallySane(semester, key, n - 1);
    }
  }

  lemma {:induction false} PeriodTallySane(semester: Semester, holidays: set<DateKey>, keys: seq<DateKey>, n: nat)
    requires n <= |keys|
    ensures Sane(PeriodTally(semester, holidays, keys, n))
  {
    if n != 0 {
      PeriodTallySane(semester, holidays, keys, n - 1);
      DayTallySane(semester, keys[n - 1], |semester.subjects|);
    }
  }

  /** What the i-th date adds to the period tally: nothing when it is a holiday, its DayTally otherwise. */
  lemma PeriodTallyNext(semester: Semester, holidays: set<DateKey>, keys: seq<DateKey>, i: nat, key: DateKey)
    requires i < |keys| && keys[i] == key
    ensures var before, after, day := PeriodTally(semester, holidays, keys, i), PeriodTally(semester, holidays, keys, i + 1), DayTally(semester, key, |semester.subjects|);
            && after.attended == before.attended + (if key in holidays then 0 else day.attended)
            && after.total == before.total + (if key in holidays then 0 else day.total)
  {
  }

  /** The per-date step of calculatePeriodStats: a holiday adds nothing; otherwise every subject
      with an entry on the date adds its weight to attended or to missed. */
  method CountDay(semester: Semester, holidays: set<DateKey>, key: DateKey, attended0: int, missed0: int) returns (attended: int, missed: int)
    ensures var day := DayTally(semester, key, |semester.subjects|);
            && attended == attended0 + (if key in holidays then 0 else day.attended)
            && attended + missed == attended0 + missed0 + (if key in holidays then 0 else day.total)
  {
    attended, missed := attended0, missed0;
    if key in holidays {
      return;
    }
    for j := 0 to |semester.subjects|
      invariant attended == attended0 + DayTally(semester, key, j).attended
      invariant attended + missed == attended0 + missed0 + DayTally(semester, key, j).total
    {
      var subject := semester.subjects[j];
      var attendance := Lookup(semester.attendance, subject.id, key);
      if attendance.Some? {
        var weight := SubjectWeight(semester.subjects, subject.id);
        if attendance.value.attended {
          attended := attended + weight;
        } else {
          missed := missed + weight;
        }
      }
    }
  }

  /** calculatePeriodStats: for every non-holiday date and every subject with an entry on it,
      add the weight to attended or to missed; total is their sum. */
  method PeriodStats(semester: Semester, holidays: set<DateKey>, dates: seq<Calendar.Day>) returns (stats: Stats)
    ensures var t := PeriodTally(semester, holidays, DateKeys(dates), |dates|);
            stats == MakeStats(t.attended, t.total)
  {
    ghost var keys := DateKeys(dates);
    var totalAttended, totalMissed := 0, 0;
    for i := 0 to |dates|
      invariant totalAttended == PeriodTally(semester, holidays, keys, i).attended
      invariant totalAttended + totalMissed == PeriodTally(semester, holidays, keys, i).total
    {
      var key := Calendar.DateKey(dates[i]);
      PeriodTallyNext(semester, holidays, keys, i, key);
      totalAttended, totalMissed := CountDay(semester, holidays, key, totalAttended, totalMissed);
    }
    var total := totalAttended + totalMissed;
    stats := Stats(totalAttended, totalMissed, total, Percentage(totalAttended, total));
  }

  /** The period statistics are consistent. */
  lemma PeriodStatsConsistent(semester: Semester, holidays: set<DateKey>, dates: seq<Calendar.Day>)
    ensures var t := PeriodTally(semester, holidays, DateKeys(dates), |dates|);
            Consistent(MakeStats(t.attended, t.total))
  {
    PeriodTallySane(semester, holidays, DateKeys(dates), |dates|);
  }

  // ---------------------------------------------------------------------
  // Period and subject statistics agree

  /** Adding a date to `among` adds, over the first n subjects, what that date contributes to
      the period statistics (nothing when it is a holiday). */
  lemma {:induction false} SubjectsTallyInsert(semester: Semester, holidays: set<DateKey>, n: nat, among: set<DateKey>, k: DateKey)
    requires n <= |semester.subjects| && k !in among
    ensures SubjectsTally(semester, holidays, n, among + {k}) ==
            Plus(SubjectsTally(semester, holidays, n, among), if k in holidays then Tally(0, 0) else DayTally(semester, k, n))
  {
    if n != 0 {
      SubjectsTallyInsert(semester, holidays, n - 1, among, k);
      InsertStep(semester, holidays, n, among, k);
    }
  }

  /** The inductive step of SubjectsTallyInsert: from the first n - 1 subjects to the first n. */
  lemma InsertStep(semester: Semester, holidays: set<DateKey>, n: nat, among: set<DateKey>, k: DateKey)
    requires 0 < n <= |semester.subjects| && k !in among
    requires SubjectsTally(semester, holidays, n - 1, among + {k}) ==
             Plus(SubjectsTally(semester, holidays, n - 1, among), if k in holidays then Tally(0, 0) else DayTally(semester, k, n - 1))
    ensures SubjectsTally(semester, holidays, n, among + {k}) ==
            Plus(SubjectsTally(semester, holidays, n, among), if k in holidays then Tally(0, 0) else DayTally(semester, k, n))
  {
    var sid, bigger := semester.subjects[n - 1].id, among + {k};
    TallyStep(semester, holidays, sid, true, among, k);
    Regroup(SubjectsTally(semester, holidays, n - 1, among), SubjectsTally(semester, holidays, n - 1, bigger),
            SubjectTally(semester, holidays, sid, true, among), SubjectTally(semester, holidays, sid, true, bigger),
            DayTally(semester, k, n - 1), Contribution(semester, sid, k), k in holidays);
  }

  lemma Regroup(a0: Tally, a1: Tally, s0: Tally, s1: Tally, d: Tally, c: Tally, skip: bool)
    requires a1 == Plus(a0, if skip then Tally(0, 0) else d)
    requires s1 == Plus(s0, if skip then Tally(0, 0) else c)
    ensures Plus(a1, s1) == Plus(Plus(a0, s0), if skip then Tally(0, 0) else Plus(d, c))
  {
  }

  lemma {:induction false} EmptyTally(semester: Semester, holidays: set<DateKey>, n: nat)
    requires n <= |semester.subjects|
    ensures SubjectsTally(semester, holidays, n, {}) == Tally(0, 0)
  {
    if n != 0 {
      EmptyTally(semester, holidays, n - 1);
      var sid := semester.subjects[n - 1].id;
      assert |CountedDates(semester.attendance, holidays, sid, true, {})| == 0;
      assert |AttendedDates(semester.attendance, holidays, sid, true, {})| == 0;
    }
  }

  /** The dates of a sequence, as a set. */
  function KeySet(keys: seq<DateKey>): set<DateKey>
  {
    set k | k in keys
  }

  /** The first n of a sequence of distinct dates contribute to the period statistics what the
      subjects' holiday-excluding statistics count over those dates. */
  lemma {:induction false} PeriodPrefixMatches(semester: Semester, holidays: set<DateKey>, keys: seq<DateKey>, n: nat)
    requires n <= |keys| && forall i, j :: 0 <= i < j < |keys| ==> keys[i] != keys[j]
    ensures PeriodTally(semester, holidays, keys, n) == SubjectsTally(semester, holidays, |semester.subjects|, KeySet(keys[..n]))
  {
    if n == 0 {
      assert keys[..n] == [];
      assert KeySet(keys[..n]) == {};
      EmptyTally(semester, holidays, |semester.subjects|);
    } else {
      PeriodPrefixMatches(semester, holidays, keys, n - 1);
      PeriodStep(semester, holidays, keys, n);
    }
  }

  /** The inductive step of PeriodPrefixMatches: the n-th date is new, so it adds its DayTally. */
  lemma PeriodStep(semester: Semester, holidays: set<DateKey>, keys: seq<DateKey>, n: nat)
    requires 0 < n <= |keys| && forall i, j :: 0 <= i < j < |keys| ==> keys[i] != keys[j]
    requires PeriodTally(semester, holidays, keys, n - 1) == SubjectsTally(semester, holidays, |semester.subjects|, KeySet(keys[..n - 1]))
    ensures PeriodTally(semester, holidays, keys, n) == SubjectsTally(semester, holidays, |semester.subjects|, KeySet(keys[..n]))
  {
    var before := KeySet(keys[..n - 1]);
    KeySetSnoc(keys, n);
    NewKey(keys, n);
    SubjectsTallyInsert(semester, holidays, |semester.subjects|, before, keys[n - 1]);
  }

  lemma KeySetSnoc(keys: seq<DateKey>, n: nat)
    requires 0 < n <= |keys|
    ensures KeySet(keys[..n]) == KeySet(keys[..n - 1]) + {keys[n - 1]}
  {
    assert keys[..n] == keys[..n - 1] + [keys[n - 1]];
  }

  lemma NewKey(keys: seq<DateKey>, n: nat)
    requires 0 < n <= |keys| && forall i, j :: 0 <= i < j < |keys| ==> keys[i] != keys[j]
    ensures keys[n - 1] !in KeySet(keys[..n - 1])
  {
    assert forall i :: 0 <= i < n - 1 ==> keys[..n - 1][i] == keys[i] && keys[i] != keys[n - 1];
  }

  /** Over a period of distinct dates, the period statistics equal the subjects' holiday-excluding
      statistics restricted to those dates, added up. */
  lemma PeriodMatchesSubjects(semester: Semester, holidays: set<DateKey>, keys: seq<DateKey>)
    requires forall i, j :: 0 <= i < j < |keys| ==> keys[i] != keys[j]
    ensures PeriodTally(semester, holidays, keys, |keys|) == SubjectsTally(semester, holidays, |semester.subjects|, set k | k in keys)
  {
    PeriodPrefixMatches(semester, holidays, keys, |keys|);
    assert keys[..|keys|] == keys;
    assert KeySet(keys) == set k | k in keys;
  }

  /** The same for a period given as days, such as a week or a month view: distinct days have
      distinct date keys. */
  lemma PeriodOfDaysMatchesSubjects(semester: Semester, holidays: set<DateKey>, dates: seq<Calendar.Day>)
    requires forall i, j :: 0 <= i < j < |dates| ==> dates[i] != dates[j]
    ensures var keys := DateKeys(dates);
            PeriodTally(semester, holidays, keys, |keys|) == SubjectsTally(semester, holidays, |semester.subjects|, set k | k in keys)
  {
    var keys := DateKeys(dates);
    forall i, j | 0 <= i < j < |keys|
      ensures keys[i] != keys[j]
    {
      if keys[i] == keys[j] {
        assert keys[i] == Calendar.DateKey(dates[i]) && keys[j] == Calendar.DateKey(dates[j]);
        Calendar.DateKeyInjective(dates[i], dates[j]);
      }
    }
    PeriodMatchesSubjects(semester, holidays, keys);
  }

  // ---------------------------------------------------------------------
  // A worked example

  /** A semester with one subject that has one present and one absent session. */
  function TwoSessions(name: string): Semester
  {
    Semester([Subject("s1", name, "")],
             map["2026-01-26" := map["s1" := Entry(true, "")], "2026-01-27" := map["s1" := Entry(false, "sick")]])
  }

  lemma TwoSessionsCounted(name: string)
    ensures var att := TwoSessions(name).attendance;
            && CountedDates(att, {}, "s1", true, att.Keys) == {"2026-01-26", "2026-01-27"}
            && AttendedDates(att, {}, "s1", true, att.Keys) == {"2026-01-26"}
  {
    var att := TwoSessions(name).attendance;
    assert att.Keys == {"2026-01-26", "2026-01-27"};
    assert "2026-01-27" in CountedDates(att, {}, "s1", true, att.Keys);
    assert "2026-01-27" !in AttendedDates(att, {}, "s1", true, att.Keys);
  }

  lemma TwoSessionsWeight(name: string)
    ensures SubjectWeight(TwoSessions(name).subjects, "s1") == if exists i :: LabAt(name, i) then 2 else 1
  {
    var subjects := TwoSessions(name).subjects;
    assert FindSubject(subjects, "s1") == Some(subjects[0]);
    LabAnyCase(name);
  }

  /** One present and one absent session make 50% whatever the name: a subject with "lab" in
      its name counts 2 attended of 4, any other subject 1 of 2. */
  lemma TwoSessionsStats(name: string)
    ensures var t := SubjectTally(TwoSessions(name), {}, "s1", true, TwoSessions(name).attendance.Keys);
            MakeStats(t.attended, t.total) == if exists i :: LabAt(name, i) then Stats(2, 2, 4, 50) else Stats(1, 1, 2, 50)
  {
    var semester := TwoSessions(name);
    TwoSessionsCounted(name);
    TwoSessionsWeight(name);
    assert |{"2026-01-26", "2026-01-27"}| == 2;
    assert Percentage(2, 4) == 50 && Percentage(1, 2) == 50;
  }

  /** "Physics LAB" is a lab and "Physics" is not. */
  lemma LabNames()
    ensures exists i :: LabAt("Physics LAB", i)
    ensures !exists i :: LabAt("Physics", i)
  {
    assert LabAt("Physics LAB", 8);
    forall i | 0 <= i && i + 3 <= |"Physics"|
      ensures !LabAt("Physics", i)
    {
      assert "Physics"[i] != 'l' && "Physics"[i] != 'L';
    }
  }
}
