/** The older scraper of src/web.py: the course map with instructor sets
    merged across semesters, mathematics courses added only when new, the
    frequency list laid over it, and the staff list with its alias table. */
module Legacy {
  import opened Wrappers
  import opened Strings
  import Frequency
  import Names
  import Catalogue

  // ---------------------------------------------------------------------
  // Courses

  /** The `staff` entry: a set while the CICS pages are read, a list after
      them; mathematics courses have none. */
  datatype StaffField = NoStaff | StaffSet(members: set<string>) | StaffList(list: seq<string>)

  datatype Course = Course(
    subject: string,
    id: string,
    title: string,
    description: string,
    staff: StaffField,
    website: Option<string>,
    frequency: Option<string>)

  type CourseMap = map<string, Course>

  /** One `h2` header of a CICS page after the title pattern matched: the
      subject and number groups as written, the title group, the text of the
      following paragraph, the `href` of the header's anchor, and the
      instructor group of the following `h3` if it matched. */
  datatype Header = Header(
    subject: string,
    number: string,
    title: string,
    description: string,
    href: string,
    instructors: Option<string>)

  /** `None` stands for a header whose title did not match the pattern. */
  type Page = seq<Option<Header>>

  predicate Skipped(h: Option<Header>) {
    h.None? || h.value.subject == "INFOSEC"
  }

  function Key(h: Header): string {
    Upper(h.subject + " " + h.number)
  }

  /** `re.match(r'Staff', name, re.IGNORECASE)` */
  predicate IsPlaceholder(name: string) {
    StartsWith(Lower(name), "staff")
  }

  /** A part of the instructor line, stripped and transliterated. */
  function NameOf(translit: string -> string): string -> string {
    part => translit(Strip(part))
  }

  /** The part gives the name `n`. */
  predicate Gives(part: string, name: string -> string, n: string) {
    !IsPlaceholder(part) && name(part) == n
  }

  /** The name one part contributes, if any. */
  function PartName(part: string, name: string -> string): (r: set<string>)
    ensures forall n :: n in r <==> Gives(part, name, n)
  {
    if IsPlaceholder(part) then {} else {name(part)}
  }

  /** The names taken from the parts of the instructor line: every part that
      does not start with "Staff", renamed by `name`. */
  function PartNames(parts: seq<string>, name: string -> string): set<string>
    decreases |parts|
  {
    if parts == [] then {}
    else PartNames(parts[..|parts| - 1], name) + PartName(parts[|parts| - 1], name)
  }

  /** A name is collected exactly when some part that is not a placeholder
      gives it. */
  lemma {:induction false} PartNamesMembers(parts: seq<string>, name: string -> string, n: string)
    ensures n in PartNames(parts, name) <==> exists i :: 0 <= i < |parts| && Gives(parts[i], name, n)
    decreases |parts|
  {
    if parts != [] {
      var init := parts[..|parts| - 1];
      PartNamesMembers(init, name, n);
      if exists i :: 0 <= i < |init| && Gives(init[i], name, n) {
        var i :| 0 <= i < |init| && Gives(init[i], name, n);
        assert parts[i] == init[i];
      }
      if exists i :: 0 <= i < |parts| && Gives(parts[i], name, n) {
        var i :| 0 <= i < |parts| && Gives(parts[i], name, n);
        if i < |init| {
          assert init[i] == parts[i];
        }
      }
    }
  }

  /** `session_staff` of one header: nobody without an instructor line. */
  function SessionStaff(instructors: Option<string>, translit: string -> string): set<string> {
    if instructors.None? then {} else PartNames(Split(instructors.value, ", "), NameOf(translit))
  }

  predicate AllSets(courses: CourseMap) {
    forall k :: k in courses ==> courses[k].staff.StaffSet?
  }

  function NewCourse(h: Header, translit: string -> string): Course {
    Course(h.subject, Key(h), h.title, h.description, StaffSet(SessionStaff(h.instructors, translit)),
      if |h.href| > 0 then Some(h.href) else None, None)
  }

  /** The merge rule of the CICS pass for one header. */
  function Step(courses: CourseMap, h: Option<Header>, translit: string -> string): (r: CourseMap)
    requires AllSets(courses)
    ensures AllSets(r)
    ensures Skipped(h) ==> r == courses
    ensures !Skipped(h) ==> r.Keys == courses.Keys + {Key(h.value)}
    ensures forall k :: k in courses && (Skipped(h) || k != Key(h.value)) ==> k in r && r[k] == courses[k]
    ensures !Skipped(h) && Key(h.value) in courses ==>
      r[Key(h.value)] == courses[Key(h.value)].(staff :=
        StaffSet(courses[Key(h.value)].staff.members + SessionStaff(h.value.instructors, translit)))
    ensures !Skipped(h) && Key(h.value) !in courses ==>
      r[Key(h.value)].staff == StaffSet(SessionStaff(h.value.instructors, translit))
      && r[Key(h.value)].title == h.value.title && r[Key(h.value)].description == h.value.description
      && r[Key(h.value)].subject == h.value.subject && r[Key(h.value)].id == Key(h.value)
      && r[Key(h.value)].website == (if |h.value.href| > 0 then Some(h.value.href) else None)
      && r[Key(h.value)].frequency == None
  {
    if Skipped(h) then courses
    else
      var key := Key(h.value);
      if key in courses then
        var c := courses[key];
        courses[key := c.(staff := StaffSet(c.staff.members + SessionStaff(h.value.instructors, translit)))]
      else courses[key := NewCourse(h.value, translit)]
  }

  function PageVisits(q: (nat, nat), pages: map<(nat, nat), Page>): Page {
    if q in pages then pages[q] else []
  }

  function Visits(queries: seq<(nat, nat)>, pages: map<(nat, nat), Page>): Page
    decreases |queries|
  {
    if queries == [] then []
    else Visits(queries[..|queries| - 1], pages) + PageVisits(queries[|queries| - 1], pages)
  }

  function Fold(courses: CourseMap, visits: Page, translit: string -> string): (r: CourseMap)
    requires AllSets(courses)
    ensures AllSets(r)
    decreases |visits|
  {
    if visits == [] then courses
    else Step(Fold(courses, visits[..|visits| - 1], translit), visits[|visits| - 1], translit)
  }

  /** A course seen again keeps its title, description and website, and its
      instructors become the union of all sessions. */
  lemma {:induction false} FoldUnion(courses: CourseMap, visits: Page, translit: string -> string, k: string)
    requires AllSets(courses) && k in courses
    ensures k in Fold(courses, visits, translit)
    ensures Fold(courses, visits, translit)[k].title == courses[k].title
    ensures Fold(courses, visits, translit)[k].description == courses[k].description
    ensures Fold(courses, visits, translit)[k].website == courses[k].website
    ensures courses[k].staff.members <= Fold(courses, visits, translit)[k].staff.members
    decreases |visits|
  {
    if visits != [] {
      FoldUnion(courses, visits[..|visits| - 1], translit, k);
    }
  }

  lemma {:induction false} FoldAppend(courses: CourseMap, a: Page, b: Page, translit: string -> string)
    requires AllSets(courses)
    ensures Fold(courses, a + b, translit) == Fold(Fold(courses, a, translit), b, translit)
    decreases |b|
  {
    if b == [] {
      assert a + b == a;
    } else {
      assert (a + b)[..|a + b| - 1] == a + b[..|b| - 1];
      FoldAppend(courses, a, b[..|b| - 1], translit);
    }
  }

  lemma {:induction false} VisitsAppend(a: seq<(nat, nat)>, b: seq<(nat, nat)>, pages: map<(nat, nat), Page>)
    ensures Visits(a + b, pages) == Visits(a, pages) + Visits(b, pages)
    decreases |b|
  {
    if b == [] {
      assert a + b == a;
    } else {
      var bi := b[..|b| - 1];
      assert (a + b)[..|a + b| - 1] == a + bi;
      VisitsAppend(a, bi, pages);
    }
  }

  /** Placeholder names are dropped: an instructor line of only "Staff"
      gives nobody. */
  lemma PlaceholderDropped(translit: string -> string)
    ensures SessionStaff(Some("Staff"), translit) == {}
  {
    SplitNoComma("Staff");
    assert Lower("Staff") == "staff";
    assert IsPlaceholder("Staff");
    assert PartName("Staff", NameOf(translit)) == {};
    assert PartNames(["Staff"], NameOf(translit)) == PartNames([], NameOf(translit)) + {};
  }

  lemma {:induction false} SplitNoComma(s: string)
    requires ' ' !in s
    ensures Split(s, ", ") == [s]
    decreases |s|
  {
    if |s| > 0 {
      if |s| >= 2 {
        assert s[..2][1] == s[1];
      }
      assert !StartsWith(s, ", ");
      assert ' ' !in s[1..];
      SplitNoComma(s[1..]);
      assert s == [s[0]] + s[1..];
    }
  }

  // Mathematics

  /** One article after the title pattern matched: the subject and number
      groups as written, the title group and the description text. */
  datatype Article = Article(subject: string, number: string, title: string, description: string)

  /** The rename compares the group as written. */
  function MathSubject(a: Article): string {
    if a.subject == "STAT" then "STATISTIC" else a.subject
  }

  function MathKey(a: Article): string {
    Upper(MathSubject(a) + " " + a.number)
  }

  /** The mathematics rule: an article that did not match, an HONORS article
      or one whose key exists is skipped; otherwise a course without staff is
      added. */
  function MathStep(courses: CourseMap, a: Option<Article>): (r: CourseMap)
    ensures forall k :: k in courses ==> k in r && r[k] == courses[k]
    ensures a.None? || a.value.subject == "HONORS" || MathKey(a.value) in courses ==> r == courses
    ensures a.Some? && a.value.subject != "HONORS" && MathKey(a.value) !in courses ==>
      r == courses[MathKey(a.value) := Course(MathSubject(a.value), MathKey(a.value), a.value.title,
        a.value.description, NoStaff, None, None)]
  {
    if a.None? || a.value.subject == "HONORS" then courses
    else
      var key := MathKey(a.value);
      if key in courses then courses
      else courses[key := Course(MathSubject(a.value), key, a.value.title, a.value.description, NoStaff, None, None)]
  }

  /** `range(start, 87, -1)` */
  function MathIds(start: int): (ids: seq<int>)
    ensures |ids| == if start > 87 then start - 87 else 0
    ensures forall i :: 0 <= i < |ids| ==> ids[i] == start - i
  {
    if start > 87 then seq(start - 87, i requires 0 <= i < start - 87 => start - i) else []
  }

  function MathVisits(ids: seq<int>, pages: map<int, seq<Option<Article>>>): seq<Option<Article>>
    decreases |ids|
  {
    if ids == [] then []
    else MathVisits(ids[..|ids| - 1], pages) + (if ids[|ids| - 1] in pages then pages[ids[|ids| - 1]] else [])
  }

  function MathFold(courses: CourseMap, visits: seq<Option<Article>>): CourseMap
    decreases |visits|
  {
    if visits == [] then courses
    else MathStep(MathFold(courses, visits[..|visits| - 1]), visits[|visits| - 1])
  }

  /** A course present before the mathematics pass, from CICS or from an
      earlier mathematics page, is left entirely alone; every course the
      pass adds has no staff. */
  lemma {:induction false} MathFoldKeeps(courses: CourseMap, visits: seq<Option<Article>>)
    ensures forall k :: k in courses ==> k in MathFold(courses, visits) && MathFold(courses, visits)[k] == courses[k]
    ensures forall k :: k in MathFold(courses, visits) && k !in courses ==> MathFold(courses, visits)[k].staff == NoStaff
    decreases |visits|
  {
    if visits != [] {
      MathFoldKeeps(courses, visits[..|visits| - 1]);
    }
  }

  lemma {:induction false} MathFoldAppend(courses: CourseMap, a: seq<Option<Article>>, b: seq<Option<Article>>)
    ensures MathFold(courses, a + b) == MathFold(MathFold(courses, a), b)
    decreases |b|
  {
    if b == [] {
      assert a + b == a;
    } else {
      assert (a + b)[..|a + b| - 1] == a + b[..|b| - 1];
      MathFoldAppend(courses, a, b[..|b| - 1]);
    }
  }

  /** Here the STAT rename is case-sensitive, so "stat 515" keeps the key
      "STAT 515". */
  lemma LowerStatNotRenamed()
    ensures MathKey(Article("stat", "515", "Introduction to Statistics", "")) == "STAT 515"
  {
    assert "stat" + " " + "515" == "stat 515";
  }

  // Frequencies

  /** `cics_course_frequency` of `get_course_frequency`: here the key is not
      upper-cased. */
  function CicsPair(row: Frequency.CicsRow): (p: (string, string))
    ensures p.0 == row.subjectCell + " " + row.numberCell && p.1 == row.frequencyCell
  {
    (row.subjectCell + " " + row.numberCell, row.frequencyCell)
  }

  /** `get_course_frequency`: the CICS rows, then the mathematics rows. */
  function CourseFrequency(cics: seq<Frequency.CicsRow>, math: seq<Frequency.MathRow>): (r: seq<(string, string)>)
    ensures |r| == |cics| + |math|
    ensures forall i :: 0 <= i < |cics| ==> r[i] == CicsPair(cics[i])
    ensures forall i :: 0 <= i < |math| ==> r[|cics| + i] == Frequency.MathPair(math[i])
  {
    seq(|cics|, i requires 0 <= i < |cics| => CicsPair(cics[i]))
      + seq(|math|, i requires 0 <= i < |math| => Frequency.MathPair(math[i]))
  }

  /** A lower-case subject cell gives a key that no course has, since course
      keys are upper-cased. */
  lemma LowerCaseRowMissesCourse()
    ensures CicsPair(Frequency.CicsRow("compsci", "121", "Fall")).0 == "compsci 121"
    ensures Key(Header("compsci", "121", "", "", "", None)) == "COMPSCI 121"
  {
    assert "compsci" + " " + "121" == "compsci 121";
    assert Upper("compsci 121") == "COMPSCI 121";
  }

  function Overlay(courses: CourseMap, pairs: seq<(string, string)>): CourseMap
    decreases |pairs|
  {
    if pairs == [] then courses
    else
      var p := pairs[|pairs| - 1];
      var c := Overlay(courses, pairs[..|pairs| - 1]);
      if p.0 in c then c[p.0 := c[p.0].(frequency := Some(p.1))] else c
  }

  /** The overlay adds no course, changes only `frequency`, and the last pair
      with a course's id wins. */
  lemma {:induction false} OverlayIsTableLookup(courses: CourseMap, pairs: seq<(string, string)>)
    ensures Overlay(courses, pairs).Keys == courses.Keys
    ensures forall k :: k in courses ==> Overlay(courses, pairs)[k] == courses[k].(frequency :=
      if k in Frequency.ToMap(pairs) then Some(Frequency.ToMap(pairs)[k]) else courses[k].frequency)
    decreases |pairs|
  {
    if pairs != [] {
      OverlayIsTableLookup(courses, pairs[..|pairs| - 1]);
    }
  }

  /** `list(course['staff'])`: the list enumerates the set once each, in an
      order the source leaves open. */
  ghost predicate Lists(after: Course, before: Course) {
    before.staff.StaffSet? && after.staff.StaffList?
    && after == before.(staff := after.staff)
    && (forall i, j :: 0 <= i < j < |after.staff.list| ==> after.staff.list[i] != after.staff.list[j])
    && (forall n :: n in after.staff.list <==> n in before.staff.members)
  }

  ghost predicate Listed(after: CourseMap, before: CourseMap) {
    after.Keys == before.Keys && forall k :: k in after ==> Lists(after[k], before[k])
  }

  // ---------------------------------------------------------------------
  // The course map, updated in place

  class CourseMapBuilder {
    var courseMap: CourseMap

    constructor()
      ensures courseMap == map[]
    {
      courseMap := map[];
    }

    /** The `session_staff` loop. */
    static method CollectSessionStaff(instructors: Option<string>, translit: string -> string) returns (names: set<string>)
      ensures names == SessionStaff(instructors, translit)
    {
      names := {};
      if instructors.None? {
        return;
      }
      var nameList := Split(instructors.value, ", ");
      var nameOf := NameOf(translit);  // unidecode(name.strip())
      for i := 0 to |nameList|
        invariant names == PartNames(nameList[..i], nameOf)
      {
        var part := nameList[i];
        ghost var before := names;
        if !IsPlaceholder(part) {
          names := names + {nameOf(part)};
        }
        assert names == before + PartName(part, nameOf);
        assert nameList[..i + 1][..i] == nameList[..i] && nameList[..i + 1][i] == part;
      }
      assert nameList[..|nameList|] == nameList;
    }

    /** The header loop body of the CICS pass. */
    method AddHeader(h: Option<Header>, translit: string -> string)
      requires AllSets(courseMap)
      modifies this
      ensures courseMap == Step(old(courseMap), h, translit)
    {
      if h.None? || h.value.subject == "INFOSEC" {
        return;
      }
      var header := h.value;
      var courseId := Upper(header.subject + " " + header.number);
      var sessionStaff := CollectSessionStaff(header.instructors, translit);
      if courseId in courseMap {
        var course := courseMap[courseId];
        courseMap := courseMap[courseId := course.(staff := StaffSet(course.staff.members + sessionStaff))];
      } else {
        var website := if |header.href| > 0 then Some(header.href) else None;
        courseMap := courseMap[courseId := Course(header.subject, courseId, header.title, header.description,
          StaffSet(sessionStaff), website, None)];
      }
    }

    method ScrapeCicsPage(query: (nat, nat), pages: map<(nat, nat), Page>, translit: string -> string)
      requires AllSets(courseMap)
      modifies this
      ensures AllSets(old(courseMap))
      ensures courseMap == Fold(old(courseMap), PageVisits(query, pages), translit)
    {
      if query !in pages {
        return;
      }
      ghost var init := courseMap;
      var headers := pages[query];
      for j := 0 to |headers|
        invariant AllSets(courseMap)
        invariant courseMap == Fold(init, headers[..j], translit)
      {
        assert headers[..j + 1][..j] == headers[..j];
        AddHeader(headers[j], translit);
      }
      assert headers[..|headers|] == headers;
    }

    method ScrapeCicsYear(year: nat, pages: map<(nat, nat), Page>, translit: string -> string)
      requires AllSets(courseMap)
      modifies this
      ensures AllSets(old(courseMap))
      ensures courseMap == Fold(old(courseMap), Visits(Catalogue.YearQueries(year), pages), translit)
    {
      ghost var start := courseMap;
      for qi := 0 to 2
        invariant AllSets(courseMap)
        invariant courseMap == Fold(start, Visits(Catalogue.YearQueries(year)[..qi], pages), translit)
      {
        var query := Catalogue.YearQueries(year)[qi];
        ghost var prefix := Catalogue.YearQueries(year)[..qi];
        assert prefix + [query] == Catalogue.YearQueries(year)[..qi + 1];
        assert (prefix + [query])[..|prefix|] == prefix;
        ScrapeCicsPage(query, pages, translit);
        FoldAppend(start, Visits(prefix, pages), PageVisits(query, pages), translit);
      }
      assert Catalogue.YearQueries(year)[..2] == Catalogue.YearQueries(year);
    }

    /** The CICS pass: the years from `now % 2000 + 1` down to 18, the fall
      page then the spring page; `pages` holds the pages that could be
      fetched and were not "404 Not Found". */
    method ScrapeCics(nowYear: nat, pages: map<(nat, nat), Page>, translit: string -> string)
      requires AllSets(courseMap)
      modifies this
      ensures AllSets(old(courseMap)) && AllSets(courseMap)
      ensures courseMap == Fold(old(courseMap), Visits(Catalogue.CicsQueries(nowYear), pages), translit)
    {
      ghost var start := courseMap;
      var top: nat := nowYear % 2000 + 1;
      var year: nat := top;
      while year > 17
        invariant year <= top
        invariant year >= 17 || year == top
        invariant AllSets(courseMap)
        invariant courseMap == Fold(start, Visits(Catalogue.QueriesAbove(top, year), pages), translit)
        decreases year
      {
        ghost var done := Catalogue.QueriesAbove(top, year);
        ScrapeCicsYear(year, pages, translit);
        FoldAppend(start, Visits(done, pages), Visits(Catalogue.YearQueries(year), pages), translit);
        VisitsAppend(done, Catalogue.YearQueries(year), pages);
        Catalogue.QueriesAboveStep(top, year);
        year := year - 1;
      }
      assert Catalogue.QueriesAbove(top, year) == Catalogue.QueriesAbove(top, 17);
    }

    /** `list(set)` in some order, each member once. */
    static method SetToList(s: set<string>) returns (l: seq<string>)
      ensures forall i, j :: 0 <= i < j < |l| ==> l[i] != l[j]
      ensures forall n :: n in l <==> n in s
    {
      l := [];
      var rest := s;
      while rest != {}
        invariant forall i, j :: 0 <= i < j < |l| ==> l[i] != l[j]
        invariant forall n :: n in l ==> n in s && n !in rest
        invariant forall n :: n in s ==> n in l || n in rest
        invariant rest <= s
        decreases rest
      {
        var x :| x in rest;
        l := l + [x];
        rest := rest - {x};
      }
    }

    /** `for course in course_map.values(): course['staff'] = list(course['staff'])` */
    method ListStaff()
      requires AllSets(courseMap)
      modifies this
      ensures Listed(courseMap, old(courseMap))
    {
      ghost var before := courseMap;
      var keys := courseMap.Keys;
      while keys != {}
        invariant keys <= before.Keys && courseMap.Keys == before.Keys
        invariant forall k :: k in keys ==> courseMap[k] == before[k]
        invariant forall k :: k in before && k !in keys ==> Lists(courseMap[k], before[k])
        decreases keys
      {
        var k :| k in keys;
        var course := courseMap[k];
        var l := SetToList(course.staff.members);
        courseMap := courseMap[k := course.(staff := StaffList(l))];
        keys := keys - {k};
      }
    }

    /** The article loop of one mathematics page. */
    method ScrapeMathPage(articles: seq<Option<Article>>)
      modifies this
      ensures courseMap == MathFold(old(courseMap), articles)
    {
      ghost var init := courseMap;
      for j := 0 to |articles|
        invariant courseMap == MathFold(init, articles[..j])
      {
        assert articles[..j + 1][..j] == articles[..j];
        var a := articles[j];
        if a.Some? && a.value.subject != "HONORS" {
          var subject := a.value.subject;
          if subject == "STAT" {
            subject := "STATISTIC";
          }
          var courseId := Upper(subject + " " + a.value.number);
          if courseId !in courseMap {
            courseMap := courseMap[courseId := Course(subject, courseId, a.value.title, a.value.description, NoStaff, None, None)];
          }
        }
      }
      assert articles[..|articles|] == articles;
    }

    /** The mathematics pass: the ids from `start` down to 88; `pages` holds
        the pages that could be fetched. */
    method ScrapeMath(start: int, pages: map<int, seq<Option<Article>>>)
      modifies this
      ensures courseMap == MathFold(old(courseMap), MathVisits(MathIds(start), pages))
    {
      ghost var init := courseMap;
      var i := start;
      ghost var n := 0;
      while i > 87
        invariant n == start - i && 0 <= n <= |MathIds(start)|
        invariant courseMap == MathFold(init, MathVisits(MathIds(start)[..n], pages))
        decreases i
      {
        ghost var done := MathIds(start)[..n];
        assert MathIds(start)[..n + 1] == done + [i];
        assert (done + [i])[..|done|] == done;
        ghost var page := if i in pages then pages[i] else [];
        assert MathVisits(done + [i], pages) == MathVisits(done, pages) + page;
        if i in pages {
          ScrapeMathPage(pages[i]);
        }
        MathFoldAppend(init, MathVisits(done, pages), page);
        assert page == [] ==> MathVisits(done, pages) + page == MathVisits(done, pages);
        i := i - 1;
        n := n + 1;
      }
      assert MathIds(start)[..n] == MathIds(start);
    }

    /** The frequency loop at the end of `scrape_courses`. */
    method OverlayFrequency(pairs: seq<(string, string)>)
      modifies this
      ensures courseMap == Overlay(old(courseMap), pairs)
    {
      ghost var init := courseMap;
      for i := 0 to |pairs|
        invariant courseMap == Overlay(init, pairs[..i])
      {
        assert pairs[..i + 1][..i] == pairs[..i];
        var (id, freq) := pairs[i];
        if id in courseMap {
          courseMap := courseMap[id := courseMap[id].(frequency := Some(freq))];
        }
      }
      assert pairs[..|pairs|] == pairs;
    }
  }

  /** `scrape_courses` of src/web.py: the CICS pass, the staff sets turned
      into lists, the mathematics pass and the frequency overlay. */
  method ScrapeCourses(nowYear: nat, cicsPages: map<(nat, nat), Page>, translit: string -> string,
                       mathStart: int, mathPages: map<int, seq<Option<Article>>>,
                       cicsRows: seq<Frequency.CicsRow>, mathRows: seq<Frequency.MathRow>)
    returns (courseMap: CourseMap)
    ensures exists listed :: (Listed(listed, Fold(map[], Visits(Catalogue.CicsQueries(nowYear), cicsPages), translit))
      && courseMap == Overlay(MathFold(listed, MathVisits(MathIds(mathStart), mathPages)), CourseFrequency(cicsRows, mathRows)))
  {
    var builder := new CourseMapBuilder();
    builder.ScrapeCics(nowYear, cicsPages, translit);
    builder.ListStaff();
    ghost var listed := builder.courseMap;
    builder.ScrapeMath(mathStart, mathPages);
    builder.OverlayFrequency(CourseFrequency(cicsRows, mathRows));
    courseMap := builder.courseMap;
  }

  /** After `scrape_courses` every CICS course has a staff list and every
      mathematics course has none. */
  lemma StaffShape(cics: CourseMap, listed: CourseMap, visits: seq<Option<Article>>, pairs: seq<(string, string)>)
    requires AllSets(cics) && Listed(listed, cics)
    ensures forall k :: k in Overlay(MathFold(listed, visits), pairs) ==>
      (Overlay(MathFold(listed, visits), pairs)[k].staff.StaffList? <==> k in cics)
      && (Overlay(MathFold(listed, visits), pairs)[k].staff.NoStaff? <==> k !in cics)
  {
    MathFoldKeeps(listed, visits);
    OverlayIsTableLookup(MathFold(listed, visits), pairs);
  }

  // ---------------------------------------------------------------------
  // Staff

  /** The hard-coded alias table. */
  const Aliases: map<string, string> := map[
    "Andrew Lan" := "Shiting Lan",
    "Mohammad Hajiesmaili" := "Mohammadhassan Hajiesmaili",
    "Ben Marlin" := "Benjamin Marlin",
    "Tim Richards" := "Timothy Richards",
    "David A. Mix Barrington" := "David Barrington",
    "Ivan Lee" := "Sunghoon Lee",
    "Dan Sheldon" := "Daniel Sheldon"]

  /** One directory entry: the transliterated, cleaned name text, the
      position, photo and email texts, the name link's `href`, and the
      transliterated title of the profile page it leads to. */
  datatype StaffRow = StaffRow(
    rawName: string,
    title: string,
    photo: string,
    email: string,
    href: string,
    pageTitle: string)

  datatype Staff = Staff(
    names: seq<string>,
    title: string,
    photo: string,
    email: string,
    website: string,
    courses: seq<string>)

  datatype StaffError =
    | NameMismatch(rawName: string)   // `name_match` is None; `.group` fails
    | EmptyHref                       // `website[0]` on an empty string

  const CicsDomain: string := "https://www.cics.umass.edu"

  /** The names after the profile page: its title is added unless present. */
  function WithPageName(names: seq<string>, row: StaffRow): seq<string> {
    if |row.href| > 0 && row.href[0] == '/' && row.pageTitle !in names then names + [row.pageTitle] else names
  }

  /** The names after the alias table: the alias of the first name is added,
      with no check that it is already there. */
  function WithAlias(names: seq<string>): seq<string>
    requires |names| > 0
  {
    if names[0] in Aliases then names + [Aliases[names[0]]] else names
  }

  /** The staff record `retrieve_staff_information` builds for one entry. */
  function StaffOf(row: StaffRow): (r: Result<Staff, StaffError>)
    ensures Names.MatchLastFirst(row.rawName, Names.WordChar).None? <==> r == Err(NameMismatch(row.rawName))
    ensures r.Ok? <==> Names.MatchLastFirst(row.rawName, Names.WordChar).Some? && |row.href| > 0
    ensures r.Ok? ==> (1 <= |r.value.names| <= 3
      && r.value.names[0] == Names.FirstLast(Names.MatchLastFirst(row.rawName, Names.WordChar).value))
    ensures r.Ok? && row.href[0] == '/' ==> r.value.website == CicsDomain + row.href && row.pageTitle in r.value.names
    ensures r.Ok? && row.href[0] != '/' ==> r.value.website == row.href
    ensures r.Ok? && r.value.names[0] in Aliases ==> r.value.names[|r.value.names| - 1] == Aliases[r.value.names[0]]
    ensures r.Ok? ==> var first := Names.FirstLast(Names.MatchLastFirst(row.rawName, Names.WordChar).value);
      r.value.names == [first]
        + (if row.href[0] == '/' && row.pageTitle != first then [row.pageTitle] else [])
        + (if first in Aliases then [Aliases[first]] else [])
    ensures r.Ok? ==> (r.value.title == row.title && r.value.photo == row.photo && r.value.email == row.email
      && r.value.courses == [])
  {
    match Names.MatchLastFirst(row.rawName, Names.WordChar)
    case None => Err(NameMismatch(row.rawName))
    case Some(m) =>
      if |row.href| == 0 then Err(EmptyHref)
      else
        var names := WithAlias(WithPageName([Names.FirstLast(m)], row));
        var website := if row.href[0] == '/' then CicsDomain + row.href else row.href;
        Ok(Staff(names, row.title, row.photo, row.email, website, []))
  }

  /** Values collected from per-entry outcomes, stopping at the first
      error. */
  function FirstError<T>(rs: seq<Result<T, StaffError>>): Result<seq<T>, StaffError>
    decreases |rs|
  {
    if rs == [] then Ok([])
    else
      match FirstError(rs[..|rs| - 1])
      case Err(e) => Err(e)
      case Ok(l) =>
        match rs[|rs| - 1]
        case Err(e) => Err(e)
        case Ok(s) => Ok(l + [s])
  }

  lemma FirstErrorSnoc<T>(rs: seq<Result<T, StaffError>>, x: Result<T, StaffError>)
    requires FirstError(rs).Ok?
    ensures FirstError(rs + [x]) == if x.Err? then Err(x.error) else Ok(FirstError(rs).value + [x.value])
  {
    assert (rs + [x])[..|rs|] == rs;
  }

  lemma {:induction false} FirstErrorOk<T>(rs: seq<Result<T, StaffError>>)
    ensures FirstError(rs).Ok? <==> forall i :: 0 <= i < |rs| ==> rs[i].Ok?
    decreases |rs|
  {
    if rs != [] {
      var init := rs[..|rs| - 1];
      FirstErrorOk(init);
      assert forall i :: 0 <= i < |init| ==> init[i] == rs[i];
    }
  }

  lemma {:induction false} FirstErrorShape<T>(rs: seq<Result<T, StaffError>>)
    requires FirstError(rs).Ok?
    ensures |FirstError(rs).value| == |rs|
    ensures forall i :: 0 <= i < |rs| ==> rs[i].Ok? && FirstError(rs).value[i] == rs[i].value
    decreases |rs|
  {
    if rs != [] {
      var init := rs[..|rs| - 1];
      FirstErrorShape(init);
      assert forall i :: 0 <= i < |init| ==> init[i] == rs[i];
    }
  }

  lemma {:induction false} FirstErrorStands<T>(rs: seq<Result<T, StaffError>>, more: seq<Result<T, StaffError>>)
    requires FirstError(rs).Err?
    ensures FirstError(rs + more) == FirstError(rs)
    decreases |more|
  {
    if more == [] {
      assert rs + more == rs;
    } else {
      var all := rs + more;
      assert all[..|all| - 1] == rs + more[..|more| - 1];
      FirstErrorStands(rs, more[..|more| - 1]);
    }
  }

  /** The outcome of every entry, in page order. */
  function Outcomes(rows: seq<StaffRow>): (rs: seq<Result<Staff, StaffError>>)
    ensures |rs| == |rows| && forall i :: 0 <= i < |rows| ==> rs[i] == StaffOf(rows[i])
  {
    seq(|rows|, i requires 0 <= i < |rows| => StaffOf(rows[i]))
  }

  lemma OutcomesAppend(a: seq<StaffRow>, b: seq<StaffRow>)
    ensures Outcomes(a + b) == Outcomes(a) + Outcomes(b)
  {
  }

  lemma OutcomesSnoc(rows: seq<StaffRow>, i: nat)
    requires i < |rows|
    ensures Outcomes(rows[..i + 1]) == Outcomes(rows[..i]) + [StaffOf(rows[i])]
  {
  }

  /** The list of staff records, failing at the first entry that fails. */
  function StaffListOf(rows: seq<StaffRow>): Result<seq<Staff>, StaffError> {
    FirstError(Outcomes(rows))
  }

  /** The list is built exactly when every entry succeeds. */
  lemma StaffListOfOk(rows: seq<StaffRow>)
    ensures StaffListOf(rows).Ok? <==> forall i :: 0 <= i < |rows| ==> StaffOf(rows[i]).Ok?
  {
    FirstErrorOk(Outcomes(rows));
  }

  /** On success there is one record per entry, in page order. */
  lemma StaffListOfShape(rows: seq<StaffRow>)
    requires StaffListOf(rows).Ok?
    ensures |StaffListOf(rows).value| == |rows|
    ensures forall i :: 0 <= i < |rows| ==> StaffOf(rows[i]).Ok? && StaffListOf(rows).value[i] == StaffOf(rows[i]).value
  {
    FirstErrorShape(Outcomes(rows));
  }

  /** After the first failing entry nothing changes the outcome. */
  lemma StaffListOfError(rows: seq<StaffRow>, more: seq<StaffRow>)
    requires StaffListOf(rows).Err?
    ensures StaffListOf(rows + more) == StaffListOf(rows)
  {
    OutcomesAppend(rows, more);
    FirstErrorStands(Outcomes(rows), Outcomes(more));
  }

  /** The body of the `retrieve_staff_information` loop for one entry: the
      name is matched and reordered, a relative href gets the CICS domain and
      the page title, and the alias table is applied. */
  method StaffInformation(row: StaffRow) returns (r: Result<Staff, StaffError>)
    ensures r == StaffOf(row)
  {
    var nameMatch := Names.MatchLastFirst(row.rawName, Names.WordChar);
    if nameMatch.None? {
      return Err(NameMismatch(row.rawName));
    }
    var names := [nameMatch.value.1 + " " + nameMatch.value.0];
    var website := row.href;
    if |website| == 0 {
      return Err(EmptyHref);
    }
    if website[0] == '/' {
      website := CicsDomain + website;
      if row.pageTitle !in names {
        names := names + [row.pageTitle];
      }
    }
    var cicsName := names[0];
    if cicsName in Aliases {
      names := names + [Aliases[cicsName]];
    }
    r := Ok(Staff(names, row.title, row.photo, row.email, website, []));
  }

  /** `retrieve_staff_information` */
  method RetrieveStaffInformation(rows: seq<StaffRow>) returns (r: Result<seq<Staff>, StaffError>)
    ensures r == StaffListOf(rows)
  {
    var staffList: seq<Staff> := [];
    for i := 0 to |rows|
      invariant StaffListOf(rows[..i]) == Ok(staffList)
    {
      var staff := StaffInformation(rows[i]);
      OutcomesSnoc(rows, i);
      FirstErrorSnoc(Outcomes(rows[..i]), staff);
      if staff.Err? {
        r := Err(staff.error);
        StaffListOfError(rows[..i + 1], rows[i + 1..]);
        assert rows[..i + 1] + rows[i + 1..] == rows;
        return;
      }
      staffList := staffList + [staff.value];
    }
    assert rows[..|rows|] == rows;
    r := Ok(staffList);
  }

  /** The alias is appended without a membership check, so a profile page
      already titled with the alias name gives it twice. */
  lemma AliasRepeated()
    ensures StaffOf(StaffRow("Lan, Andrew", "Professor", "", "", "/people/lan", "Shiting Lan")).Ok?
    ensures StaffOf(StaffRow("Lan, Andrew", "Professor", "", "", "/people/lan", "Shiting Lan")).value.names
      == ["Andrew Lan", "Shiting Lan", "Shiting Lan"]
  {
    var row := StaffRow("Lan, Andrew", "Professor", "", "", "/people/lan", "Shiting Lan");
    LanMatch();
    StaffOfMatched(row, ("Lan", "Andrew"));
    LanNames(row);
  }

  lemma StaffOfMatched(row: StaffRow, m: (string, string))
    requires Names.MatchLastFirst(row.rawName, Names.WordChar) == Some(m) && |row.href| > 0
    ensures StaffOf(row).Ok? && StaffOf(row).value.names == WithAlias(WithPageName([Names.FirstLast(m)], row))
  {
  }

  lemma LanNames(row: StaffRow)
    requires row.href == "/people/lan" && row.pageTitle == "Shiting Lan"
    ensures WithAlias(WithPageName([Names.FirstLast(("Lan", "Andrew"))], row)) == ["Andrew Lan", "Shiting Lan", "Shiting Lan"]
  {
    var first := Names.FirstLast(("Lan", "Andrew"));
    assert first == "Andrew Lan";
    var paged := WithPageName([first], row);
    assert paged == ["Andrew Lan", "Shiting Lan"] by {
      assert row.href[0] == '/';
      assert "Shiting Lan"[0] != "Andrew Lan"[0];
    }
    assert "Andrew Lan" in Aliases && Aliases["Andrew Lan"] == "Shiting Lan";
  }

  lemma LanMatch()
    ensures Names.MatchLastFirst("Lan, Andrew", Names.WordChar) == Some(("Lan", "Andrew"))
  {
    Names.AsciiWord("Lan");
    Names.AsciiWord("Andrew");
    assert "Lan" + ", " + "Andrew" == "Lan, Andrew";
    Names.MatchRoundTrip("Lan", "Andrew", Names.WordChar);
  }
}
