/** src/shared/semester.py: the semester pattern and the `Semester` value
    object (a season from `SEASON_LIST` and a four-digit year kept as a
    string), its comparisons, string forms, `next` and `previous`. */
module Semesters {
  import opened Wrappers
  import opened Strings
  import UtilText

  const SeasonList: seq<string> := ["Spring", "Summer", "Fall", "Winter"]

  /** Python's `$` without MULTILINE: at the end, or just before a final newline. */
  predicate AtEnd(s: string, i: int) {
    i == |s| || (0 <= i == |s| - 1 && s[i] == '\n')
  }

  /** `20\d{2}` at position `i`. */
  predicate YearAt(s: string, i: nat) {
    i + 4 <= |s| && s[i] == '2' && s[i + 1] == '0' && IsAsciiDigit(s[i + 2]) && IsAsciiDigit(s[i + 3])
  }

  /** `SEASON_LIST[k]` at position `i`. */
  predicate SeasonAt(s: string, i: nat, k: nat)
    requires k < 4
  {
    OccursAt(s, SeasonList[k], i)
  }

  /** First alternative of `SEMESTER_REGEXP`: `^(Season) (20\d{2})$`. */
  predicate SeasonFirst(s: string) {
    exists k :: 0 <= k < 4 && SeasonAt(s, 0, k)
      && |SeasonList[k]| < |s| && s[|SeasonList[k]|] == ' '
      && YearAt(s, |SeasonList[k]| + 1) && AtEnd(s, |SeasonList[k]| + 5)
  }

  /** Second alternative: `(20\d{2})$ (Season)$`. The `$` inside it must hold
      right before a space. */
  predicate YearFirst(s: string) {
    YearAt(s, 0) && 4 < |s| && s[4] == ' '
      && (exists k :: 0 <= k < 4 && SeasonAt(s, 5, k) && AtEnd(s, 5 + |SeasonList[k]|))
      && AtEnd(s, 4)
  }

  /** `is_semester(s)`, i.e. `match_semester(s) is not None`. */
  predicate IsSemester(s: string) {
    SeasonFirst(s) || YearFirst(s)
  }

  /** The year-first alternative can never match. */
  lemma YearFirstNeverMatches(s: string)
    ensures !YearFirst(s)
    ensures IsSemester(s) <==> SeasonFirst(s)
  {
  }

  /** `re.match(r"^\d{4}$", year)`. */
  predicate IsYearText(y: string) {
    (|y| == 4 || (|y| == 5 && y[4] == '\n')) && forall i :: 0 <= i < 4 ==> IsAsciiDigit(y[i])
  }

  datatype Semester = Semester(season: string, year: string)

  /** What `__init__` establishes. */
  predicate Valid(s: Semester) {
    s.season in SeasonList && IsYearText(s.year)
  }

  datatype SemesterError =
    | SemesterAssertion   // an `assert` failed
    | SeasonNotInList     // `SEASON_LIST.index` raised ValueError
    | YearArithmetic      // `self._year - 1` on a string raised TypeError
    | LastGroupNotInt     // `int(match.lastgroup)` on an unnamed group

  /** `SEASON_LIST.index(season)` */
  function SeasonIndex(season: string): (i: nat)
    requires season in SeasonList
    ensures i < |SeasonList| && SeasonList[i] == season
  {
    if season == "Spring" then 0 else if season == "Summer" then 1
    else if season == "Fall" then 2 else 3
  }

  /** `Semester(season, year)`: fails unless the year is four digits and the
      season is in `SEASON_LIST`, checked in that order. */
  function NewSemester(season: string, year: string): (r: Result<Semester, SemesterError>)
    ensures r.Ok? <==> season in SeasonList && IsYearText(year)
    ensures r.Ok? ==> Valid(r.value) && r.value.season == season && r.value.year == year
    ensures !IsYearText(year) ==> r == Err(SemesterAssertion)
    ensures IsYearText(year) && season !in SeasonList ==> r == Err(SeasonNotInList)
  {
    if !IsYearText(year) then Err(SemesterAssertion)
    else if season !in SeasonList then Err(SeasonNotInList)
    else Ok(Semester(season, year))
  }

  /** `Semester.from_text`: after a successful match it calls
      `int(match.lastgroup)`, and `lastgroup` is None for unnamed groups, so it
      never returns a semester. */
  function FromText(text: string): (r: Result<Semester, SemesterError>)
    ensures r.Err?
    ensures IsSemester(UtilText.UtilCleaned(text)) ==> r == Err(LastGroupNotInt)
  {
    var cleaned := UtilText.UtilCleaned(text);
    if !IsSemester(cleaned) then Err(SemesterAssertion) else Err(LastGroupNotInt)
  }

  /** `__eq__` */
  predicate Eq(a: Semester, b: Semester) {
    a.season == b.season && a.year == b.year
  }

  /** `__ne__` */
  predicate Ne(a: Semester, b: Semester) {
    a.season != b.season || a.year != b.year
  }

  /** `__str__` */
  function Str(s: Semester): string {
    s.season + " " + s.year
  }

  /** `swapped_str` */
  function SwappedStr(s: Semester): string {
    s.year + " " + s.season
  }

  /** `__hash__` is `hash(str(self))`: what is hashed is `Str`. */
  function HashKey(s: Semester): string {
    Str(s)
  }

  /** `==` is field equality, `!=` its negation, and equal semesters hash alike. */
  lemma EqualityLaws(a: Semester, b: Semester)
    ensures Eq(a, b) <==> a == b
    ensures Ne(a, b) <==> !Eq(a, b)
    ensures Eq(a, b) ==> HashKey(a) == HashKey(b)
  {
  }

  /** Conversely, different valid semesters print, and hash, differently. */
  lemma StrInjective(a: Semester, b: Semester)
    requires Valid(a) && Valid(b)
    requires Str(a) == Str(b)
    ensures Eq(a, b)
  {
    var sa, sb := Str(a), Str(b);
    assert sa[0] == a.season[0] && sa[1] == a.season[1];
    assert sb[0] == b.season[0] && sb[1] == b.season[1];
    assert a.season == b.season;
    var n := |a.season| + 1;
    assert a.year == sa[n..] && b.year == sb[n..];
  }

  /** Different valid semesters also have different swapped forms: the
      fifth character tells whether the year carries its newline. */
  lemma SwappedStrInjective(a: Semester, b: Semester)
    requires Valid(a) && Valid(b)
    requires SwappedStr(a) == SwappedStr(b)
    ensures Eq(a, b)
  {
    var sa, sb := SwappedStr(a), SwappedStr(b);
    assert sa[4] == (if |a.year| == 4 then ' ' else '\n');
    assert sb[4] == (if |b.year| == 4 then ' ' else '\n');
    assert |a.year| == |b.year|;
    var n := |a.year|;
    assert a.year == sa[..n] && b.year == sb[..n];
    assert a.season == sa[n + 1..] && b.season == sb[n + 1..];
  }

  /** The swapped form is never accepted by `is_semester`: it starts with a
      digit, where the season-first pattern needs a season name. */
  lemma SwappedStrRejected(s: Semester)
    requires Valid(s)
    ensures !IsSemester(SwappedStr(s))
  {
    var t := SwappedStr(s);
    YearFirstNeverMatches(t);
    assert IsAsciiDigit(t[0]);
    forall k | 0 <= k < 4
      ensures !SeasonAt(t, 0, k)
    {
      assert !IsAsciiDigit(SeasonList[k][0]);
    }
  }

  /** `__lt__`: both the year (compared as strings) and the season index must
      be smaller. */
  predicate Lt(a: Semester, b: Semester)
    requires Valid(a) && Valid(b)
  {
    LexLess(a.year, b.year) && SeasonIndex(a.season) < SeasonIndex(b.season)
  }

  /** `__gt__` */
  predicate Gt(a: Semester, b: Semester)
    requires Valid(a) && Valid(b)
  {
    LexLess(b.year, a.year) && SeasonIndex(a.season) > SeasonIndex(b.season)
  }

  /** `__le__` */
  predicate Le(a: Semester, b: Semester)
    requires Valid(a) && Valid(b)
  {
    Lt(a, b) || Eq(a, b)
  }

  /** `__ge__` */
  predicate Ge(a: Semester, b: Semester)
    requires Valid(a) && Valid(b)
  {
    Gt(a, b) || Eq(a, b)
  }

  /** `a < b` iff `b > a`; `<` is irreflexive and `<=` is `<` or `==`. */
  lemma OrderDuality(a: Semester, b: Semester)
    requires Valid(a) && Valid(b)
    ensures Lt(a, b) <==> Gt(b, a)
    ensures Le(a, b) <==> Ge(b, a)
    ensures !Lt(a, a) && Le(a, a)
  {
    LexLessIrreflexive(a.year);
  }

  /** `<` is transitive, so it is a strict partial order. */
  lemma LtTransitive(a: Semester, b: Semester, c: Semester)
    requires Valid(a) && Valid(b) && Valid(c)
    requires Lt(a, b) && Lt(b, c)
    ensures Lt(a, c)
  {
    LexLessTransitive(a.year, b.year, c.year);
  }

  /** ... but not the chronological one: Fall 2021 and Spring 2022 are
      different and neither is below the other. */
  lemma LtNotChronological()
    ensures Valid(Semester("Fall", "2021")) && Valid(Semester("Spring", "2022"))
    ensures !Le(Semester("Fall", "2021"), Semester("Spring", "2022"))
    ensures !Ge(Semester("Fall", "2021"), Semester("Spring", "2022"))
  {
    var y1, y2 := "2021", "2022";
    assert y1[..3] == y2[..3] && y1[3] < y2[3];
    assert LexLess(y1, y2) by {
      assert y1[1..][1..][1..] == "1" && y2[1..][1..][1..] == "2";
    }
    assert !LexLess(y2, y1) by {
      assert y1[1..][1..][1..] == "1" && y2[1..][1..][1..] == "2";
    }
  }

  /** `next`: the season index plus one never exceeds `len(SEASON_LIST)`, so
      the year branch that would add to a string is never taken. */
  function Next(s: Semester): Result<Semester, SemesterError>
    requires Valid(s)
  {
    var i := SeasonIndex(s.season) + 1;
    if i > |SeasonList| then Err(YearArithmetic)
    else NewSemester(SeasonList[i % |SeasonList|], s.year)
  }

  /** `previous`: one season back; from Spring it evaluates `year - 1` on a
      string and fails. */
  function Previous(s: Semester): Result<Semester, SemesterError>
    requires Valid(s)
  {
    var i := SeasonIndex(s.season) - 1;
    if i < 0 then Err(YearArithmetic)
    else NewSemester(SeasonList[i], s.year)
  }

  /** `next` always succeeds, keeps the year and moves the season one step
      round the list, so Winter is followed by Spring of the same year. */
  lemma NextCycles(s: Semester)
    requires Valid(s)
    ensures Next(s).Ok? && Valid(Next(s).value)
    ensures Next(s).value.year == s.year
    ensures SeasonIndex(Next(s).value.season) == (SeasonIndex(s.season) + 1) % 4
    ensures s.season == "Winter" ==> Next(s).value.season == "Spring"
  {
  }

  /** `previous` fails exactly for Spring; otherwise it keeps the year and
      steps the season back once. */
  lemma PreviousSteps(s: Semester)
    requires Valid(s)
    ensures Previous(s).Err? <==> s.season == "Spring"
    ensures Previous(s).Err? ==> Previous(s).error == YearArithmetic
    ensures Previous(s).Ok? ==>
      (Valid(Previous(s).value) && Previous(s).value.year == s.year
       && SeasonIndex(Previous(s).value.season) == SeasonIndex(s.season) - 1)
  {
  }

  lemma PreviousAfterNext(s: Semester)
    requires Valid(s) && s.season != "Winter"
    ensures Next(s).Ok? && Valid(Next(s).value) && Previous(Next(s).value) == Ok(s)
  {
    NextCycles(s);
    var t := Next(s).value;
    PreviousSteps(t);
    var u := Previous(t).value;
    assert SeasonIndex(u.season) == SeasonIndex(s.season);
    assert u.season == SeasonList[SeasonIndex(s.season)] == s.season;
  }

  lemma NextAfterPrevious(s: Semester)
    requires Valid(s) && s.season != "Spring"
    ensures Previous(s).Ok? && Valid(Previous(s).value) && Next(Previous(s).value) == Ok(s)
  {
    PreviousSteps(s);
    var t := Previous(s).value;
    NextCycles(t);
    var u := Next(t).value;
    assert SeasonIndex(u.season) == SeasonIndex(s.season);
    assert u.season == SeasonList[SeasonIndex(s.season)] == s.season;
  }

  /** `previous` undoes `next` except after Winter, and `next` undoes
      `previous` wherever `previous` succeeds. */
  lemma NextPreviousInverse(s: Semester)
    requires Valid(s)
    ensures s.season != "Winter" ==> Next(s).Ok? && Valid(Next(s).value) && Previous(Next(s).value) == Ok(s)
    ensures s.season != "Spring" ==> Previous(s).Ok? && Valid(Previous(s).value) && Next(Previous(s).value) == Ok(s)
  {
    if s.season != "Winter" {
      PreviousAfterNext(s);
    }
    if s.season != "Spring" {
      NextAfterPrevious(s);
    }
  }

  /** The printed form of a semester of the 2000s matches the pattern. */
  lemma StrIsSemester(s: Semester)
    requires Valid(s) && |s.year| == 4 && s.year[0] == '2' && s.year[1] == '0'
    ensures IsSemester(Str(s))
  {
    var k := SeasonIndex(s.season);
    var t := Str(s);
    assert t[..|s.season|] == s.season;
    assert SeasonAt(t, 0, k);
    var n := |SeasonList[k]|;
    assert t[n + 1..] == s.year;
    assert YearAt(t, n + 1);
  }

  /** The season-first alternative, for one season: the text is that season,
      a space and the year, possibly followed by a newline. */
  lemma SeasonFirstParses(t: string, k: nat)
    requires k < 4 && SeasonAt(t, 0, k) && |SeasonList[k]| < |t| && t[|SeasonList[k]|] == ' '
    requires YearAt(t, |SeasonList[k]| + 1) && AtEnd(t, |SeasonList[k]| + 5)
    ensures Valid(Semester(SeasonList[k], t[|SeasonList[k]| + 1..|SeasonList[k]| + 5]))
    ensures var s := Semester(SeasonList[k], t[|SeasonList[k]| + 1..|SeasonList[k]| + 5]);
      t == Str(s) || t == Str(s) + "\n"
  {
    var n := |SeasonList[k]|;
    var y := t[n + 1..n + 5];
    assert t[..n] == SeasonList[k];
    assert IsYearText(y);
    assert t[..n + 5] == SeasonList[k] + " " + y by {
      assert t[..n + 5] == t[..n] + t[n..n + 1] + t[n + 1..n + 5];
    }
    if n + 5 == |t| {
      assert t == t[..n + 5];
    } else {
      assert t == t[..n + 5] + t[n + 5..];
      assert t[n + 5..] == "\n";
    }
  }

  /** Every string the pattern accepts is the printed form of a semester,
      possibly followed by a newline. */
  lemma IsSemesterParses(t: string)
    requires IsSemester(t)
    ensures exists s :: Valid(s) && (t == Str(s) || t == Str(s) + "\n")
  {
    YearFirstNeverMatches(t);
    var k :| 0 <= k < 4 && SeasonAt(t, 0, k)
      && |SeasonList[k]| < |t| && t[|SeasonList[k]|] == ' '
      && YearAt(t, |SeasonList[k]| + 1) && AtEnd(t, |SeasonList[k]| + 5);
    SeasonFirstParses(t, k);
    var n := |SeasonList[k]|;
    var s := Semester(SeasonList[k], t[n + 1..n + 5]);
    assert Valid(s) && (t == Str(s) || t == Str(s) + "\n");
  }

  /** A year followed by a newline passes the year assertion of `__init__`. */
  lemma YearWithNewline()
    ensures NewSemester("Fall", "2021\n").Ok?
  {
  }
}
