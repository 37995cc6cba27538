/** The course catalogue of src/scraper/web.py and src/scraper/descriptions.py:
    a dictionary from `"SUBJECT NUMBER"` to a course record, filled from the
    per-semester description pages newest semester first. The first page that
    lists a course creates its record; later pages only add offerings and the
    instructors of their semester. A frequency table is laid over it last. */
module Catalogue {
  import opened Wrappers
  import opened Strings
  import Frequency

  /** `RawCourse`; `website`, `frequency` and `prerequisites` are the keys the
      dictionary may lack. */
  datatype RawCourse = RawCourse(
    id: string,
    subject: string,
    number: string,
    title: string,
    description: string,
    mostRecentOffering: string,
    pastOfferings: seq<string>,
    semesterStaff: map<string, string>,
    website: Option<string>,
    frequency: Option<string>,
    prerequisites: Option<string>)

  /** Every semester a record lists, `most_recent_offering` first. */
  function Offerings(c: RawCourse): seq<string> {
    [c.mostRecentOffering] + c.pastOfferings
  }

  /** The fields a later observation of the same course never changes. */
  predicate SameEntry(a: RawCourse, b: RawCourse) {
    a.id == b.id && a.subject == b.subject && a.number == b.number && a.title == b.title
    && a.description == b.description && a.mostRecentOffering == b.mostRecentOffering
    && a.website == b.website && a.frequency == b.frequency && a.prerequisites == b.prerequisites
  }

  type Courses = map<string, RawCourse>

  // ---------------------------------------------------------------------
  // CICS description pages

  /** One `h2` course header of a CICS description page after the title
      pattern matched: the subject and number groups as written, the title
      group, the text of the following paragraph, the `href` of the header's
      anchor if it has one, and the instructor group of the following `h3`
      if there is one. */
  datatype CicsHeader = CicsHeader(
    subject: string,
    number: string,
    title: string,
    description: string,
    website: Option<string>,
    instructors: Option<string>)

  function CicsKey(h: CicsHeader): string {
    Upper(h.subject) + " " + Upper(h.number)
  }

  predicate IsInfosec(h: CicsHeader) {
    Upper(h.subject) == "INFOSEC"
  }

  /** The record the first observation of a course creates. */
  function NewCicsCourse(semester: string, h: CicsHeader): RawCourse {
    RawCourse(CicsKey(h), Upper(h.subject), Upper(h.number), h.title, h.description,
      semester, [], map[], h.website, None, None)
  }

  /** `semester_staff` after `|= {semester: instructors.strip()}`. */
  function StaffAfter(staff: map<string, string>, semester: string, h: CicsHeader): map<string, string> {
    if h.instructors.Some? then staff[semester := Strip(h.instructors.value)] else staff
  }

  /** The merge rule for one header seen in `semester`. */
  function CicsStep(courses: Courses, semester: string, h: CicsHeader): (r: Courses)
    ensures IsInfosec(h) ==> r == courses
    ensures !IsInfosec(h) ==> r.Keys == courses.Keys + {CicsKey(h)}
    ensures forall k :: k in courses && k != CicsKey(h) ==> k in r && r[k] == courses[k]
    ensures !IsInfosec(h) && CicsKey(h) in courses ==>
      SameEntry(r[CicsKey(h)], courses[CicsKey(h)])
      && r[CicsKey(h)].pastOfferings == courses[CicsKey(h)].pastOfferings + [semester]
      && r[CicsKey(h)].semesterStaff == StaffAfter(courses[CicsKey(h)].semesterStaff, semester, h)
    ensures !IsInfosec(h) && CicsKey(h) !in courses ==>
      SameEntry(r[CicsKey(h)], NewCicsCourse(semester, h))
      && r[CicsKey(h)].mostRecentOffering == semester && r[CicsKey(h)].pastOfferings == []
      && r[CicsKey(h)].title == h.title && r[CicsKey(h)].description == h.description
      && r[CicsKey(h)].website == h.website
      && r[CicsKey(h)].semesterStaff == StaffAfter(map[], semester, h)
  {
    if IsInfosec(h) then courses
    else
      var key := CicsKey(h);
      var c := if key in courses then courses[key].(pastOfferings := courses[key].pastOfferings + [semester])
               else NewCicsCourse(semester, h);
      courses[key := c.(semesterStaff := StaffAfter(c.semesterStaff, semester, h))]
  }

  /** `semester` for a `(two-digit year, query id)` pair: query 7 is the fall
      page, every other query the spring page. */
  function SemesterName(q: (nat, nat)): string {
    (if q.1 == 7 then "Fall" else "Spring") + " " + NatToString(2000 + q.0)
  }

  function YearQueries(year: nat): seq<(nat, nat)> {
    [(year, 7), (year, 3)]
  }

  /** The queries for the years `top` down to `year + 1`. */
  function QueriesAbove(top: nat, year: nat): seq<(nat, nat)>
    decreases top - year
  {
    if year >= top then [] else QueriesAbove(top, year + 1) + YearQueries(year + 1)
  }

  /** The page queries in visiting order for the calendar year `nowYear`. */
  function CicsQueries(nowYear: nat): seq<(nat, nat)> {
    QueriesAbove(nowYear % 2000 + 1, 17)
  }

  /** The headers of one page, with its semester; a query without a page
      (the fetch failed) contributes nothing. */
  function PageVisits(q: (nat, nat), pages: map<(nat, nat), seq<CicsHeader>>): seq<(string, CicsHeader)> {
    if q in pages then seq(|pages[q]|, i requires 0 <= i < |pages[q]| => (SemesterName(q), pages[q][i])) else []
  }

  /** All headers in visiting order. */
  function CicsVisits(queries: seq<(nat, nat)>, pages: map<(nat, nat), seq<CicsHeader>>): seq<(string, CicsHeader)>
    decreases |queries|
  {
    if queries == [] then []
    else CicsVisits(queries[..|queries| - 1], pages) + PageVisits(queries[|queries| - 1], pages)
  }

  /** The dictionary after the merge rule has seen every header in order. */
  function CicsFold(courses: Courses, visits: seq<(string, CicsHeader)>): Courses
    decreases |visits|
  {
    if visits == [] then courses
    else
      var v := visits[|visits| - 1];
      CicsStep(CicsFold(courses, visits[..|visits| - 1]), v.0, v.1)
  }

  /** The semesters, in visiting order, in which the course `k` is seen. */
  function CicsOccurrences(visits: seq<(string, CicsHeader)>, k: string): seq<string>
    decreases |visits|
  {
    if visits == [] then []
    else
      var v := visits[|visits| - 1];
      CicsOccurrences(visits[..|visits| - 1], k) + (if !IsInfosec(v.1) && CicsKey(v.1) == k then [v.0] else [])
  }

  lemma {:induction false} QueriesAboveShape(top: nat, year: nat)
    requires year <= top
    ensures |QueriesAbove(top, year)| == 2 * (top - year)
    ensures forall i :: 0 <= i < top - year ==>
      QueriesAbove(top, year)[2 * i] == (top - i, 7) && QueriesAbove(top, year)[2 * i + 1] == (top - i, 3)
    decreases top - year
  {
    if year < top {
      QueriesAboveShape(top, year + 1);
    }
  }

  lemma QueriesAboveStep(top: nat, year: nat)
    requires 0 < year <= top
    ensures QueriesAbove(top, year - 1) == QueriesAbove(top, year) + YearQueries(year)
  {
  }

  lemma {:induction false} CicsVisitsAppend(a: seq<(nat, nat)>, b: seq<(nat, nat)>, pages: map<(nat, nat), seq<CicsHeader>>)
    ensures CicsVisits(a + b, pages) == CicsVisits(a, pages) + CicsVisits(b, pages)
    decreases |b|
  {
    if b == [] {
      assert a + b == a;
    } else {
      var bi := b[..|b| - 1];
      assert (a + b)[..|a + b| - 1] == a + bi;
      CicsVisitsAppend(a, bi, pages);
    }
  }

  lemma CicsVisitsSnoc(queries: seq<(nat, nat)>, q: (nat, nat), pages: map<(nat, nat), seq<CicsHeader>>)
    ensures CicsVisits(queries + [q], pages) == CicsVisits(queries, pages) + PageVisits(q, pages)
  {
    assert (queries + [q])[..|queries|] == queries;
  }

  /** Newest first: the years from `now % 2000 + 1` down to 18, within a
      year the fall page (query 7) before the spring page (query 3). */
  lemma CicsQueriesOrder(nowYear: nat)
    ensures var top := nowYear % 2000 + 1;
      |CicsQueries(nowYear)| == (if top > 17 then 2 * (top - 17) else 0)
      && forall i :: 0 <= i < top - 17 ==>
        CicsQueries(nowYear)[2 * i] == (top - i, 7) && CicsQueries(nowYear)[2 * i + 1] == (top - i, 3)
  {
    var top := nowYear % 2000 + 1;
    if top > 17 {
      QueriesAboveShape(top, 17);
    }
  }

  /** Query 7 names the fall semester and query 3 the spring semester. */
  lemma SemesterNames(year: nat)
    ensures SemesterName((year, 7)) == "Fall " + NatToString(2000 + year)
    ensures SemesterName((year, 3)) == "Spring " + NatToString(2000 + year)
  {
  }

  lemma {:induction false} CicsFoldAppend(courses: Courses, a: seq<(string, CicsHeader)>, b: seq<(string, CicsHeader)>)
    ensures CicsFold(courses, a + b) == CicsFold(CicsFold(courses, a), b)
    decreases |b|
  {
    if b == [] {
      assert a + b == a;
    } else {
      assert (a + b)[..|a + b| - 1] == a + b[..|b| - 1];
      CicsFoldAppend(courses, a, b[..|b| - 1]);
    }
  }

  /** The keys the CICS headers bring. */
  ghost function CicsKeySet(visits: seq<(string, CicsHeader)>): set<string>
    decreases |visits|
  {
    if visits == [] then {}
    else
      var v := visits[|visits| - 1];
      CicsKeySet(visits[..|visits| - 1]) + (if IsInfosec(v.1) then {} else {CicsKey(v.1)})
  }

  lemma {:induction false} CicsFoldKeySet(courses: Courses, visits: seq<(string, CicsHeader)>)
    ensures CicsFold(courses, visits).Keys == courses.Keys + CicsKeySet(visits)
    decreases |visits|
  {
    if visits != [] {
      CicsFoldKeySet(courses, visits[..|visits| - 1]);
    }
  }

  /** Every header that is not INFOSEC puts its key in the set. */
  lemma {:induction false} CicsKeySetHas(visits: seq<(string, CicsHeader)>, i: int)
    requires 0 <= i < |visits| && !IsInfosec(visits[i].1)
    ensures CicsKey(visits[i].1) in CicsKeySet(visits)
    decreases |visits|
  {
    var init := visits[..|visits| - 1];
    if i < |init| {
      assert init[i] == visits[i];
      CicsKeySetHas(init, i);
    }
  }

  /** Every key in the set comes from a header that is not INFOSEC. */
  lemma {:induction false} CicsKeySetWitness(visits: seq<(string, CicsHeader)>, k: string)
    requires k in CicsKeySet(visits)
    ensures exists i :: 0 <= i < |visits| && !IsInfosec(visits[i].1) && CicsKey(visits[i].1) == k
    decreases |visits|
  {
    var init := visits[..|visits| - 1];
    if k in CicsKeySet(init) {
      CicsKeySetWitness(init, k);
      var i :| 0 <= i < |init| && !IsInfosec(init[i].1) && CicsKey(init[i].1) == k;
      assert visits[i] == init[i];
    } else {
      assert !IsInfosec(visits[|visits| - 1].1) && CicsKey(visits[|visits| - 1].1) == k;
    }
  }

  /** The keys after the fold: the keys before and the key of every header
      that is not INFOSEC; no other key appears. */
  lemma {:induction false} CicsFoldKeys(courses: Courses, visits: seq<(string, CicsHeader)>)
    ensures forall k :: k in CicsFold(courses, visits) <==>
      k in courses || exists i :: 0 <= i < |visits| && !IsInfosec(visits[i].1) && CicsKey(visits[i].1) == k
  {
    CicsFoldKeySet(courses, visits);
    forall k
      ensures k in CicsKeySet(visits) <==>
        exists i :: 0 <= i < |visits| && !IsInfosec(visits[i].1) && CicsKey(visits[i].1) == k
    {
      if k in CicsKeySet(visits) {
        CicsKeySetWitness(visits, k);
      }
      if exists i :: 0 <= i < |visits| && !IsInfosec(visits[i].1) && CicsKey(visits[i].1) == k {
        var i :| 0 <= i < |visits| && !IsInfosec(visits[i].1) && CicsKey(visits[i].1) == k;
        CicsKeySetHas(visits, i);
      }
    }
  }

  /** A record that exists keeps its identity, title, description, website and
      most recent offering through any number of further headers. */
  lemma {:induction false} CicsFoldKeeps(courses: Courses, visits: seq<(string, CicsHeader)>, k: string)
    requires k in courses
    ensures k in CicsFold(courses, visits) && SameEntry(CicsFold(courses, visits)[k], courses[k])
    decreases |visits|
  {
    if visits != [] {
      CicsFoldKeeps(courses, visits[..|visits| - 1], k);
    }
  }

  /** First seen wins: a course absent before is created by its first
      header, and keeps that header's fields. */
  lemma CicsFoldFirstSeen(courses: Courses, visits: seq<(string, CicsHeader)>, i: nat)
    requires i < |visits| && !IsInfosec(visits[i].1) && CicsKey(visits[i].1) !in courses
    requires forall j :: 0 <= j < i ==> IsInfosec(visits[j].1) || CicsKey(visits[j].1) != CicsKey(visits[i].1)
    ensures CicsKey(visits[i].1) in CicsFold(courses, visits)
    ensures SameEntry(CicsFold(courses, visits)[CicsKey(visits[i].1)], NewCicsCourse(visits[i].0, visits[i].1))
  {
    var k := CicsKey(visits[i].1);
    var before := visits[..i];
    var after := visits[i + 1..];
    assert visits == before + [visits[i]] + after;
    CicsFoldKeys(courses, before);
    assert k !in CicsFold(courses, before);
    assert CicsFold(courses, before + [visits[i]]) == CicsStep(CicsFold(courses, before), visits[i].0, visits[i].1) by {
      assert (before + [visits[i]])[..|before|] == before;
    }
    var created := CicsFold(courses, before + [visits[i]]);
    CicsFoldKeeps(created, after, k);
    CicsFoldAppend(courses, before + [visits[i]], after);
  }

  /** Every further header of a course adds its semester to
      `past_offerings`, in visiting order; so the record lists exactly the
      semesters of the pages that show the course. */
  lemma {:induction false} CicsFoldHistory(courses: Courses, visits: seq<(string, CicsHeader)>, k: string)
    requires k in CicsFold(courses, visits)
    ensures Offerings(CicsFold(courses, visits)[k]) ==
      (if k in courses then Offerings(courses[k]) else []) + CicsOccurrences(visits, k)
    decreases |visits|
  {
    if visits != [] {
      var init := visits[..|visits| - 1];
      var v := visits[|visits| - 1];
      var before := CicsFold(courses, init);
      var after := CicsStep(before, v.0, v.1);
      assert CicsFold(courses, visits) == after;
      if k in before {
        CicsFoldHistory(courses, init, k);
        if !IsInfosec(v.1) && CicsKey(v.1) == k {
          assert Offerings(after[k]) == Offerings(before[k]) + [v.0];
        } else {
          assert after[k] == before[k];
        }
      } else {
        CicsFoldKeySet(courses, init);
        forall i | 0 <= i < |init| && !IsInfosec(init[i].1)
          ensures CicsKey(init[i].1) != k
        {
          CicsKeySetHas(init, i);
        }
        CicsOccurrencesAbsent(init, k);
      }
    }
  }

  lemma {:induction false} CicsOccurrencesAbsent(visits: seq<(string, CicsHeader)>, k: string)
    requires forall i :: 0 <= i < |visits| ==> IsInfosec(visits[i].1) || CicsKey(visits[i].1) != k
    ensures CicsOccurrences(visits, k) == []
    decreases |visits|
  {
    if visits != [] {
      CicsOccurrencesAbsent(visits[..|visits| - 1], k);
    }
  }

  // ---------------------------------------------------------------------
  // Mathematics description pages (src/scraper/descriptions.py)

  /** One article of a mathematics description page after the title pattern
      matched: the subject and number groups as written, the title group, the
      description text, and the prerequisites text if the tag is present. */
  datatype MathArticle = MathArticle(
    subject: string,
    number: string,
    title: string,
    description: string,
    prerequisites: Option<string>)

  /** A page: the text of its selected semester option and its articles. */
  datatype MathPage = MathPage(semester: string, articles: seq<MathArticle>)

  /** The skip test compares the group as written, before upper-casing. */
  predicate IsHonors(a: MathArticle) {
    a.subject == "HONORS"
  }

  function MathSubject(a: MathArticle): string {
    if Upper(a.subject) == "STAT" then "STATISTIC" else Upper(a.subject)
  }

  function MathKey(a: MathArticle): string {
    MathSubject(a) + " " + Upper(a.number)
  }

  function NewMathCourse(semester: string, a: MathArticle): RawCourse {
    RawCourse(MathKey(a), MathSubject(a), Upper(a.number), a.title, a.description,
      semester, [], map[], None, None, a.prerequisites)
  }

  /** The merge rule for one article seen in `semester`. */
  function MathStep(courses: Courses, semester: string, a: MathArticle): (r: Courses)
    ensures IsHonors(a) ==> r == courses
    ensures !IsHonors(a) ==> r.Keys == courses.Keys + {MathKey(a)}
    ensures forall k :: k in courses && k != MathKey(a) ==> k in r && r[k] == courses[k]
    ensures !IsHonors(a) && MathKey(a) in courses ==>
      SameEntry(r[MathKey(a)], courses[MathKey(a)])
      && r[MathKey(a)].semesterStaff == courses[MathKey(a)].semesterStaff
      && r[MathKey(a)].pastOfferings == courses[MathKey(a)].pastOfferings
        + (if semester != courses[MathKey(a)].mostRecentOffering then [semester] else [])
    ensures !IsHonors(a) && MathKey(a) !in courses ==>
      r[MathKey(a)] == NewMathCourse(semester, a)
      && r[MathKey(a)].mostRecentOffering == semester && r[MathKey(a)].pastOfferings == []
      && r[MathKey(a)].semesterStaff == map[] && r[MathKey(a)].prerequisites == a.prerequisites
  {
    if IsHonors(a) then courses
    else
      var key := MathKey(a);
      if key in courses then
        var c := courses[key];
        if semester != c.mostRecentOffering then courses[key := c.(pastOfferings := c.pastOfferings + [semester])]
        else courses
      else courses[key := NewMathCourse(semester, a)]
  }

  /** `range(start + 1, start - 10, -1)`: eleven semester ids, newest first. */
  function MathIds(start: int): (ids: seq<int>)
    ensures |ids| == 11 && ids[0] == start + 1 && ids[10] == start - 9
    ensures forall i :: 0 <= i < 11 ==> ids[i] == start + 1 - i
  {
    seq(11, i requires 0 <= i < 11 => start + 1 - i)
  }

  /** The articles of one id with the page's semester; an id without a page
      or without articles contributes nothing. */
  function MathPageVisits(id: int, pages: map<int, MathPage>): seq<(string, MathArticle)> {
    if id in pages && |pages[id].articles| > 0 then
      seq(|pages[id].articles|, i requires 0 <= i < |pages[id].articles| => (pages[id].semester, pages[id].articles[i]))
    else []
  }

  function MathVisits(ids: seq<int>, pages: map<int, MathPage>): seq<(string, MathArticle)>
    decreases |ids|
  {
    if ids == [] then []
    else MathVisits(ids[..|ids| - 1], pages) + MathPageVisits(ids[|ids| - 1], pages)
  }

  function MathFold(courses: Courses, visits: seq<(string, MathArticle)>): Courses
    decreases |visits|
  {
    if visits == [] then courses
    else
      var v := visits[|visits| - 1];
      MathStep(MathFold(courses, visits[..|visits| - 1]), v.0, v.1)
  }

  lemma MathVisitsSnoc(ids: seq<int>, id: int, pages: map<int, MathPage>)
    ensures MathVisits(ids + [id], pages) == MathVisits(ids, pages) + MathPageVisits(id, pages)
  {
    assert (ids + [id])[..|ids|] == ids;
  }

  lemma {:induction false} MathFoldAppend(courses: Courses, a: seq<(string, MathArticle)>, b: seq<(string, MathArticle)>)
    ensures MathFold(courses, a + b) == MathFold(MathFold(courses, a), b)
    decreases |b|
  {
    if b == [] {
      assert a + b == a;
    } else {
      assert (a + b)[..|a + b| - 1] == a + b[..|b| - 1];
      MathFoldAppend(courses, a, b[..|b| - 1]);
    }
  }

  /** The mathematics pass never changes the title, description or any other
      fixed field of a course already present, whether it came from CICS or
      from an earlier mathematics page. */
  lemma {:induction false} MathFoldKeeps(courses: Courses, visits: seq<(string, MathArticle)>, k: string)
    requires k in courses
    ensures k in MathFold(courses, visits) && SameEntry(MathFold(courses, visits)[k], courses[k])
    ensures MathFold(courses, visits)[k].semesterStaff == courses[k].semesterStaff
    decreases |visits|
  {
    if visits != [] {
      MathFoldKeeps(courses, visits[..|visits| - 1], k);
    }
  }

  /** The keys the mathematics articles bring. */
  ghost function MathKeySet(visits: seq<(string, MathArticle)>): set<string>
    decreases |visits|
  {
    if visits == [] then {}
    else
      var v := visits[|visits| - 1];
      MathKeySet(visits[..|visits| - 1]) + (if IsHonors(v.1) then {} else {MathKey(v.1)})
  }

  /** Every article that is not HONORS puts its key in the set. */
  lemma {:induction false} MathKeySetHas(visits: seq<(string, MathArticle)>, i: int)
    requires 0 <= i < |visits| && !IsHonors(visits[i].1)
    ensures MathKey(visits[i].1) in MathKeySet(visits)
    decreases |visits|
  {
    var init := visits[..|visits| - 1];
    if i < |init| {
      assert init[i] == visits[i];
      MathKeySetHas(init, i);
    }
  }

  /** Every key in the set comes from an article that is not HONORS. */
  lemma {:induction false} MathKeySetWitness(visits: seq<(string, MathArticle)>, k: string)
    requires k in MathKeySet(visits)
    ensures exists i :: 0 <= i < |visits| && !IsHonors(visits[i].1) && MathKey(visits[i].1) == k
    decreases |visits|
  {
    var init := visits[..|visits| - 1];
    if k in MathKeySet(init) {
      MathKeySetWitness(init, k);
      var i :| 0 <= i < |init| && !IsHonors(init[i].1) && MathKey(init[i].1) == k;
      assert visits[i] == init[i];
    } else {
      assert !IsHonors(visits[|visits| - 1].1) && MathKey(visits[|visits| - 1].1) == k;
    }
  }

  /** The keys after the mathematics pass: the keys before and the key of
      every article that is not HONORS. */
  lemma {:induction false} MathFoldKeys(courses: Courses, visits: seq<(string, MathArticle)>)
    ensures MathFold(courses, visits).Keys == courses.Keys + MathKeySet(visits)
    ensures forall k :: k in MathFold(courses, visits) <==>
      k in courses || exists i :: 0 <= i < |visits| && !IsHonors(visits[i].1) && MathKey(visits[i].1) == k
    decreases |visits|
  {
    if visits != [] {
      MathFoldKeys(courses, visits[..|visits| - 1]);
    }
    forall k
      ensures k in MathKeySet(visits) <==>
        exists i :: 0 <= i < |visits| && !IsHonors(visits[i].1) && MathKey(visits[i].1) == k
    {
      if k in MathKeySet(visits) {
        MathKeySetWitness(visits, k);
      }
      if exists i :: 0 <= i < |visits| && !IsHonors(visits[i].1) && MathKey(visits[i].1) == k {
        var i :| 0 <= i < |visits| && !IsHonors(visits[i].1) && MathKey(visits[i].1) == k;
        MathKeySetHas(visits, i);
      }
    }
  }

  /** An id whose page has no articles leaves the dictionary as it was. */
  lemma EmptyPageSkipped(courses: Courses, ids: seq<int>, pages: map<int, MathPage>, id: int)
    requires id !in pages || pages[id].articles == []
    ensures MathFold(courses, MathVisits(ids + [id], pages)) == MathFold(courses, MathVisits(ids, pages))
  {
    assert (ids + [id])[..|ids|] == ids;
    assert MathVisits(ids + [id], pages) == MathVisits(ids, pages) + [];
    assert MathVisits(ids, pages) + [] == MathVisits(ids, pages);
  }

  /** STAT is renamed STATISTIC before the key is formed. */
  lemma StatRenamed(a: MathArticle)
    requires Upper(a.subject) == "STAT"
    ensures MathKey(a) == "STATISTIC " + Upper(a.number)
  {
  }

  /** The HONORS test is case-sensitive while the key is upper-cased, so a
      lower-case "honors" article creates an "HONORS" course. */
  lemma HonorsCaseSensitive()
    ensures var a := MathArticle("honors", "191", "Seminar", "", None);
      !IsHonors(a) && MathKey(a) == "HONORS 191" && MathKey(a) in MathStep(map[], "Fall 2023", a)
  {
    var a := MathArticle("honors", "191", "Seminar", "", None);
    assert Upper("honors") == "HONORS";
    assert Upper("191") == "191";
  }

  /** Only the most recent offering is guarded: a course shown twice on an
      older page gets that semester twice in `past_offerings`. */
  lemma PastOfferingRepeats()
    ensures var a := MathArticle("MATH", "131", "Calculus I", "", None);
      var c := MathStep(MathStep(MathStep(map[], "Fall 2023", a), "Spring 2023", a), "Spring 2023", a);
      MathKey(a) in c && c[MathKey(a)].pastOfferings == ["Spring 2023", "Spring 2023"]
  {
    var a := MathArticle("MATH", "131", "Calculus I", "", None);
    assert Upper("MATH") == "MATH";
    assert Upper("131") == "131";
  }

  // ---------------------------------------------------------------------
  // Frequency overlay

  /** The overlay loop: a pair whose id is a course sets its frequency; any
      other pair is ignored. */
  function Overlay(courses: Courses, pairs: seq<(string, string)>): Courses
    decreases |pairs|
  {
    if pairs == [] then courses
    else
      var p := pairs[|pairs| - 1];
      var c := Overlay(courses, pairs[..|pairs| - 1]);
      if p.0 in c then c[p.0 := c[p.0].(frequency := Some(p.1))] else c
  }

  /** The overlay adds no course, changes nothing but `frequency`, and gives
      every course the frequency the dictionary of the pairs assigns it: the
      last pair with that id wins. */
  lemma {:induction false} OverlayIsTableLookup(courses: Courses, pairs: seq<(string, string)>)
    ensures Overlay(courses, pairs).Keys == courses.Keys
    ensures forall k :: k in courses ==> Overlay(courses, pairs)[k] == courses[k].(frequency :=
      if k in Frequency.ToMap(pairs) then Some(Frequency.ToMap(pairs)[k]) else courses[k].frequency)
    decreases |pairs|
  {
    if pairs != [] {
      OverlayIsTableLookup(courses, pairs[..|pairs| - 1]);
    }
  }

  // ---------------------------------------------------------------------
  // The dictionary, updated in place

  class Catalogue {
    var courses: Courses

    constructor()
      ensures courses == map[]
    {
      courses := map[];
    }

    /** The header loop body of `_scrape_cics_courses`. */
    method AddCicsHeader(semester: string, h: CicsHeader)
      modifies this
      ensures courses == CicsStep(old(courses), semester, h)
    {
      var subject := Upper(h.subject);
      if subject == "INFOSEC" {
        return;
      }
      var number := Upper(h.number);
      var id := subject + " " + number;
      var course: RawCourse;
      if id in courses {
        course := courses[id];
        course := course.(pastOfferings := course.pastOfferings + [semester]);
      } else {
        course := RawCourse(id, subject, number, h.title, h.description, semester, [], map[], h.website, None, None);
      }
      if h.instructors.Some? {
        course := course.(semesterStaff := course.semesterStaff[semester := Strip(h.instructors.value)]);
      }
      courses := courses[id := course];
    }

    /** One page of `_scrape_cics_courses`: nothing when the fetch failed,
      otherwise every header in page order. */
    method ScrapeCicsPage(query: (nat, nat), pages: map<(nat, nat), seq<CicsHeader>>)
      modifies this
      ensures courses == CicsFold(old(courses), PageVisits(query, pages))
    {
      if query !in pages {
        return;
      }
      ghost var init := courses;
      var semester := SemesterName(query);
      var headers := pages[query];
      for j := 0 to |headers|
        invariant courses == CicsFold(init, PageVisits(query, pages)[..j])
      {
        assert PageVisits(query, pages)[..j + 1][..j] == PageVisits(query, pages)[..j];
        AddCicsHeader(semester, headers[j]);
      }
      assert PageVisits(query, pages)[..|headers|] == PageVisits(query, pages);
    }

    /** The query loop of `_scrape_cics_courses` for one year: the fall
      page, then the spring page. */
    method ScrapeCicsYear(year: nat, pages: map<(nat, nat), seq<CicsHeader>>)
      modifies this
      ensures courses == CicsFold(old(courses), CicsVisits(YearQueries(year), pages))
    {
      ghost var start := courses;
      for qi := 0 to 2
        invariant courses == CicsFold(start, CicsVisits(YearQueries(year)[..qi], pages))
      {
        var query := YearQueries(year)[qi];
        ghost var prefix := YearQueries(year)[..qi];
        assert prefix + [query] == YearQueries(year)[..qi + 1];
        ScrapeCicsPage(query, pages);
        CicsFoldAppend(start, CicsVisits(prefix, pages), PageVisits(query, pages));
        CicsVisitsSnoc(prefix, query, pages);
      }
      assert YearQueries(year)[..2] == YearQueries(year);
    }

    /** `_scrape_cics_courses`: the years from `now % 2000 + 1` down to 18;
      `pages` holds the pages that could be fetched. */
    method ScrapeCicsCourses(nowYear: nat, pages: map<(nat, nat), seq<CicsHeader>>)
      modifies this
      ensures courses == CicsFold(old(courses), CicsVisits(CicsQueries(nowYear), pages))
    {
      ghost var start := courses;
      var top: nat := nowYear % 2000 + 1;
      var year: nat := top;
      while year > 17
        invariant year <= top
        invariant year >= 17 || year == top
        invariant courses == CicsFold(start, CicsVisits(QueriesAbove(top, year), pages))
        decreases year
      {
        ghost var done := QueriesAbove(top, year);
        ScrapeCicsYear(year, pages);
        CicsFoldAppend(start, CicsVisits(done, pages), CicsVisits(YearQueries(year), pages));
        CicsVisitsAppend(done, YearQueries(year), pages);
        QueriesAboveStep(top, year);
        year := year - 1;
      }
      assert QueriesAbove(top, year) == QueriesAbove(top, 17);
    }

    /** The article loop body of `_scrape_math_courses`. */
    method AddMathArticle(semester: string, a: MathArticle)
      modifies this
      ensures courses == MathStep(old(courses), semester, a)
    {
      if a.subject == "HONORS" {
        return;
      }
      var subject := Upper(a.subject);
      if subject == "STAT" {
        subject := "STATISTIC";
      }
      var number := Upper(a.number);
      var id := subject + " " + number;
      if id in courses {
        var course := courses[id];
        if semester != course.mostRecentOffering {
          courses := courses[id := course.(pastOfferings := course.pastOfferings + [semester])];
        }
      } else {
        courses := courses[id := RawCourse(id, subject, number, a.title, a.description, semester, [], map[], None, None, a.prerequisites)];
      }
    }

    /** One semester id of `_scrape_math_courses`: nothing when the page
      has no articles, otherwise every article under the page's semester. */
    method ScrapeMathPage(id: int, pages: map<int, MathPage>)
      modifies this
      ensures courses == MathFold(old(courses), MathPageVisits(id, pages))
    {
      if id !in pages || |pages[id].articles| == 0 {
        return;
      }
      ghost var init := courses;
      var semester := pages[id].semester;
      var articles := pages[id].articles;
      for j := 0 to |articles|
        invariant courses == MathFold(init, MathPageVisits(id, pages)[..j])
      {
        assert MathPageVisits(id, pages)[..j + 1][..j] == MathPageVisits(id, pages)[..j];
        AddMathArticle(semester, articles[j]);
      }
      assert MathPageVisits(id, pages)[..|articles|] == MathPageVisits(id, pages);
    }

    /** `_scrape_math_courses` of src/scraper/descriptions.py: the ids from
      `start + 1` down to `start - 9`. */
    method ScrapeMathCourses(start: int, pages: map<int, MathPage>)
      modifies this
      ensures courses == MathFold(old(courses), MathVisits(MathIds(start), pages))
    {
      ghost var init := courses;
      var ids := MathIds(start);  // range(start + 1, start - 10, -1)
      for n := 0 to |ids|
        invariant courses == MathFold(init, MathVisits(ids[..n], pages))
      {
        var id := ids[n];
        ghost var done := ids[..n];
        assert ids[..n + 1] == done + [id];
        ScrapeMathPage(id, pages);
        MathFoldAppend(init, MathVisits(done, pages), MathPageVisits(id, pages));
        MathVisitsSnoc(done, id, pages);
      }
      assert ids[..|ids|] == ids;
    }

    /** The frequency loop of `scrape_courses`. */
    method OverlayFrequency(pairs: seq<(string, string)>)
      modifies this
      ensures courses == Overlay(old(courses), pairs)
    {
      ghost var init := courses;
      for i := 0 to |pairs|
        invariant courses == Overlay(init, pairs[..i])
      {
        assert pairs[..i + 1][..i] == pairs[..i];
        var (id, frequency) := pairs[i];
        if id in courses {
          var course := courses[id];
          courses := courses[id := course.(frequency := Some(frequency))];
        }
      }
      assert pairs[..|pairs|] == pairs;
    }
  }

  /** `scrape_courses` of src/scraper/web.py: the CICS pages, the (empty)
      mathematics pass of that file, then the frequency list. */
  method ScrapeCourses(nowYear: nat, pages: map<(nat, nat), seq<CicsHeader>>,
                       cicsRows: seq<Frequency.CicsRow>, mathRows: seq<Frequency.MathRow>)
    returns (courses: Courses)
    ensures courses == Overlay(CicsFold(map[], CicsVisits(CicsQueries(nowYear), pages)),
                               Frequency.Pairs(cicsRows, mathRows))
  {
    var catalogue := new Catalogue();
    catalogue.ScrapeCicsCourses(nowYear, pages);
    var frequencies := Frequency.CourseFrequencyList(cicsRows, mathRows);
    catalogue.OverlayFrequency(frequencies);
    courses := catalogue.courses;
  }

  /** The courses `scrape_courses` returns are exactly those of the CICS
      headers that are not INFOSEC: the frequency table adds none. */
  lemma ScrapedCourseKeys(visits: seq<(string, CicsHeader)>, pairs: seq<(string, string)>, k: string)
    ensures k in Overlay(CicsFold(map[], visits), pairs) <==>
      exists i :: 0 <= i < |visits| && !IsInfosec(visits[i].1) && CicsKey(visits[i].1) == k
  {
    OverlayIsTableLookup(CicsFold(map[], visits), pairs);
    CicsFoldKeys(map[], visits);
  }
}
