/** The staff directory scrapers: `_scrape_cics_staff` and `_scrape_math_staff`
    of src/scraper/staff.py, and `scrape_raw_staff_list` of
    src/scraper/web.py, which reads the CICS directory the same way but sets
    no department and no website for an off-site link. */
module StaffDirectory {
  import opened Wrappers
  import opened Strings
  import Names

  /** A staff member; an optional field is `None` when the page did not give
      it (the key is absent from the dictionary). */
  datatype StaffRecord = StaffRecord(
    names: set<string>,
    department: Option<string>,
    title: Option<string>,
    email: Option<string>,
    phone: Option<string>,
    office: Option<string>,
    website: Option<string>,
    photo: Option<string>)

  datatype Field = Title | Email | Phone | Office

  function SetField(r: StaffRecord, f: Field, v: string): StaffRecord {
    match f
    case Title => r.(title := Some(v))
    case Email => r.(email := Some(v))
    case Phone => r.(phone := Some(v))
    case Office => r.(office := Some(v))
  }

  /** The attribute table of the CICS directory: which field, and how many
      leading label characters ("Em:", "Ph:", ...) are cut off. */
  const CicsAttributes: seq<(Field, nat)> := [(Title, 0), (Email, 3), (Phone, 3), (Office, 3)]

  /** The attribute table of the mathematics directory: whole texts. */
  const MathAttributes: seq<(Field, nat)> := [(Office, 0), (Phone, 0), (Title, 0)]

  /** The attribute loop: a field whose tag was found (`tags` holds the text
      of each found tag) gets that text without its first `offset`
      characters; a field whose tag is missing is left alone. */
  function ApplyAttributes(r: StaffRecord, tags: map<Field, string>, attrs: seq<(Field, nat)>): StaffRecord
    decreases |attrs|
  {
    if attrs == [] then r
    else
      var (f, offset) := attrs[|attrs| - 1];
      var r' := ApplyAttributes(r, tags, attrs[..|attrs| - 1]);
      if f in tags then SetField(r', f, Drop(tags[f], offset)) else r'
  }

  function FieldOf(r: StaffRecord, f: Field): Option<string> {
    match f
    case Title => r.title
    case Email => r.email
    case Phone => r.phone
    case Office => r.office
  }

  /** The attribute loop never touches the names, department, website or
      photo. */
  lemma {:induction false} ApplyAttributesKeeps(r: StaffRecord, tags: map<Field, string>, attrs: seq<(Field, nat)>)
    ensures var r' := ApplyAttributes(r, tags, attrs);
      r'.names == r.names && r'.department == r.department && r'.website == r.website && r'.photo == r.photo
    decreases |attrs|
  {
    if attrs != [] {
      ApplyAttributesKeeps(r, tags, attrs[..|attrs| - 1]);
    }
  }

  lemma FieldOfSet(r: StaffRecord, g: Field, v: string, f: Field)
    ensures FieldOf(SetField(r, g, v), f) == if f == g then Some(v) else FieldOf(r, f)
  {
  }

  /** A field the table does not name keeps its value. */
  lemma {:induction false} ApplyAttributesUnlisted(r: StaffRecord, tags: map<Field, string>, attrs: seq<(Field, nat)>, f: Field)
    requires forall i :: 0 <= i < |attrs| ==> attrs[i].0 != f
    ensures FieldOf(ApplyAttributes(r, tags, attrs), f) == FieldOf(r, f)
    decreases |attrs|
  {
    if attrs != [] {
      var init := attrs[..|attrs| - 1];
      var last := attrs[|attrs| - 1];
      assert forall i :: 0 <= i < |init| ==> init[i] == attrs[i];
      ApplyAttributesUnlisted(r, tags, init, f);
      if last.0 in tags {
        FieldOfSet(ApplyAttributes(r, tags, init), last.0, Drop(tags[last.0], last.1), f);
      }
    }
  }

  /** A field the table names once gets its tag's text minus the offset, or
      keeps its value when the tag is missing. */
  lemma {:induction false} ApplyAttributesListed(r: StaffRecord, tags: map<Field, string>, attrs: seq<(Field, nat)>, i: int)
    requires forall i, j :: 0 <= i < j < |attrs| ==> attrs[i].0 != attrs[j].0
    requires 0 <= i < |attrs|
    ensures FieldOf(ApplyAttributes(r, tags, attrs), attrs[i].0) ==
      if attrs[i].0 in tags then Some(Drop(tags[attrs[i].0], attrs[i].1)) else FieldOf(r, attrs[i].0)
    decreases |attrs|
  {
    var init := attrs[..|attrs| - 1];
    var last := attrs[|attrs| - 1];
    var f := attrs[i].0;
    if i == |attrs| - 1 {
      if last.0 in tags {
        FieldOfSet(ApplyAttributes(r, tags, init), last.0, Drop(tags[last.0], last.1), f);
      } else {
        assert forall k :: 0 <= k < |init| ==> init[k] == attrs[k];
        ApplyAttributesUnlisted(r, tags, init, f);
      }
    } else {
      assert forall k :: 0 <= k < |init| ==> init[k] == attrs[k];
      ApplyAttributesListed(r, tags, init, i);
      if last.0 in tags {
        FieldOfSet(ApplyAttributes(r, tags, init), last.0, Drop(tags[last.0], last.1), f);
      }
    }
  }

  /** Every field named once in the table gets its tag's text with the
      table's offset cut off, or stays as it was; the names, department,
      website and photo never change. */
  lemma {:induction false} ApplyAttributesFields(r: StaffRecord, tags: map<Field, string>, attrs: seq<(Field, nat)>)
    requires forall i, j :: 0 <= i < j < |attrs| ==> attrs[i].0 != attrs[j].0
    ensures var r' := ApplyAttributes(r, tags, attrs);
      r'.names == r.names && r'.department == r.department && r'.website == r.website && r'.photo == r.photo
    ensures forall i :: 0 <= i < |attrs| ==> (FieldOf(ApplyAttributes(r, tags, attrs), attrs[i].0) ==
      if attrs[i].0 in tags then Some(Drop(tags[attrs[i].0], attrs[i].1)) else FieldOf(r, attrs[i].0))
    ensures forall f :: (forall i :: 0 <= i < |attrs| ==> attrs[i].0 != f) ==>
      FieldOf(ApplyAttributes(r, tags, attrs), f) == FieldOf(r, f)
  {
    ApplyAttributesKeeps(r, tags, attrs);
    forall i | 0 <= i < |attrs|
      ensures FieldOf(ApplyAttributes(r, tags, attrs), attrs[i].0) ==
        if attrs[i].0 in tags then Some(Drop(tags[attrs[i].0], attrs[i].1)) else FieldOf(r, attrs[i].0)
    {
      ApplyAttributesListed(r, tags, attrs, i);
    }
    forall f | forall i :: 0 <= i < |attrs| ==> attrs[i].0 != f
      ensures FieldOf(ApplyAttributes(r, tags, attrs), f) == FieldOf(r, f)
    {
      ApplyAttributesUnlisted(r, tags, attrs, f);
    }
  }

  /** With the CICS table: the title is kept whole, the email, phone and
      office lose three characters, and a missing tag leaves the field as it
      was. */
  lemma CicsOffsets(r: StaffRecord, tags: map<Field, string>)
    ensures var r' := ApplyAttributes(r, tags, CicsAttributes);
      r'.title == (if Title in tags then Some(tags[Title]) else r.title)
      && r'.email == (if Email in tags then Some(Drop(tags[Email], 3)) else r.email)
      && r'.phone == (if Phone in tags then Some(Drop(tags[Phone], 3)) else r.phone)
      && r'.office == (if Office in tags then Some(Drop(tags[Office], 3)) else r.office)
      && r'.names == r.names && r'.department == r.department && r'.website == r.website && r'.photo == r.photo
  {
    ApplyAttributesFields(r, tags, CicsAttributes);
    assert CicsAttributes[0] == (Title, 0) && CicsAttributes[1] == (Email, 3);
    assert CicsAttributes[2] == (Phone, 3) && CicsAttributes[3] == (Office, 3);
    assert Title in tags ==> Drop(tags[Title], 0) == tags[Title];
  }

  /** With the mathematics table every found text is kept whole and the
      email is never touched. */
  lemma MathOffsets(r: StaffRecord, tags: map<Field, string>)
    ensures var r' := ApplyAttributes(r, tags, MathAttributes);
      r'.title == (if Title in tags then Some(tags[Title]) else r.title)
      && r'.phone == (if Phone in tags then Some(tags[Phone]) else r.phone)
      && r'.office == (if Office in tags then Some(tags[Office]) else r.office)
      && r'.email == r.email
      && r'.names == r.names && r'.department == r.department && r'.website == r.website && r'.photo == r.photo
  {
    ApplyAttributesFields(r, tags, MathAttributes);
    assert MathAttributes[0] == (Office, 0) && MathAttributes[1] == (Phone, 0) && MathAttributes[2] == (Title, 0);
    assert forall f :: f in tags ==> Drop(tags[f], 0) == tags[f];
    assert forall i :: 0 <= i < |MathAttributes| ==> MathAttributes[i].0 != Email;
    assert FieldOf(ApplyAttributes(r, tags, MathAttributes), Email) == FieldOf(r, Email);
  }

  // ---------------------------------------------------------------------
  // The CICS directory

  /** Which of the two CICS directory scrapers. */
  datatype Variant =
    | StaffModule   // `_scrape_cics_staff`: department "CICS", off-site links kept
    | RawList       // `scrape_raw_staff_list`: neither

  /** One row of the CICS directory: the name link's text and `href`, the
      texts of the attribute tags found, and, for a relative link, the
      profile page's title and the `src` of its headshot if there is one. */
  datatype CicsEntry = CicsEntry(
    rawName: string,
    href: string,
    tags: map<Field, string>,
    pageTitle: string,
    headshot: Option<string>)

  const CicsDomain: string := "https://www.cics.umass.edu"

  /** The record before the attribute loop: the reordered name and the
      department. */
  function CicsBase(display: string, v: Variant): StaffRecord {
    StaffRecord({display}, if v == StaffModule then Some("CICS") else None, None, None, None, None, None, None)
  }

  /** The record after the link: a relative one adds the domain, the profile
      page's title and a non-empty headshot; an off-site one is only kept as
      the website by `_scrape_cics_staff`. */
  function WithLink(r: StaffRecord, e: CicsEntry, v: Variant): StaffRecord {
    if StartsWith(e.href, "/") then
      r.(website := Some(CicsDomain + e.href), names := r.names + {e.pageTitle},
         photo := if e.headshot.Some? && |e.headshot.value| > 0 then e.headshot else r.photo)
    else if v == StaffModule then r.(website := Some(e.href))
    else r
  }

  lemma WithLinkFacts(r: StaffRecord, e: CicsEntry, v: Variant)
    ensures var r' := WithLink(r, e, v);
      (StartsWith(e.href, "/") ==> (r'.names == r.names + {e.pageTitle}
        && r'.website == Some(CicsDomain + e.href)
        && r'.photo == (if e.headshot.Some? && |e.headshot.value| > 0 then e.headshot else r.photo)))
      && (!StartsWith(e.href, "/") ==> (r'.names == r.names && r'.photo == r.photo
        && r'.website == (if v == StaffModule then Some(e.href) else r.website)))
      && r'.department == r.department
  {
  }

  /** The record of one CICS row; `None` when the name does not match
      "Last, First" (the source's `assert name_match` fails). */
  function CicsRecord(e: CicsEntry, v: Variant): (r: Option<StaffRecord>)
    ensures r.None? <==> Names.MatchLastFirst(e.rawName, Names.DirectoryChar).None?
    ensures r.Some? ==> (
      var display := Names.FirstLast(Names.MatchLastFirst(e.rawName, Names.DirectoryChar).value);
      (StartsWith(e.href, "/") ==> (r.value.names == {display, e.pageTitle}
        && r.value.website == Some(CicsDomain + e.href)
        && r.value.photo == (if e.headshot.Some? && |e.headshot.value| > 0 then e.headshot else None)))
      && (!StartsWith(e.href, "/") ==> (r.value.names == {display} && r.value.photo == None
        && r.value.website == (if v == StaffModule then Some(e.href) else None)))
      && r.value.department == (if v == StaffModule then Some("CICS") else None))
  {
    match Names.MatchLastFirst(e.rawName, Names.DirectoryChar)
    case None => None
    case Some(m) =>
      var start := CicsBase(Names.FirstLast(m), v);
      var base := ApplyAttributes(start, e.tags, CicsAttributes);
      ApplyAttributesKeeps(start, e.tags, CicsAttributes);
      WithLinkFacts(base, e, v);
      Some(WithLink(base, e, v))
  }

  /** The attributes of a CICS record follow the CICS table. */
  lemma CicsRecordAttributes(e: CicsEntry, v: Variant)
    requires CicsRecord(e, v).Some?
    ensures var r := CicsRecord(e, v).value;
      r.title == (if Title in e.tags then Some(e.tags[Title]) else None)
      && r.email == (if Email in e.tags then Some(Drop(e.tags[Email], 3)) else None)
      && r.phone == (if Phone in e.tags then Some(Drop(e.tags[Phone], 3)) else None)
      && r.office == (if Office in e.tags then Some(Drop(e.tags[Office], 3)) else None)
  {
    var m := Names.MatchLastFirst(e.rawName, Names.DirectoryChar).value;
    CicsOffsets(CicsBase(Names.FirstLast(m), v), e.tags);
  }

  /** The two CICS scrapers build the same record except that the raw list
      has no department and no website for an off-site link. */
  lemma VariantsAgree(e: CicsEntry)
    requires CicsRecord(e, StaffModule).Some?
    ensures CicsRecord(e, RawList).Some?
    ensures CicsRecord(e, RawList).value == CicsRecord(e, StaffModule).value.(department := None,
      website := if StartsWith(e.href, "/") then CicsRecord(e, StaffModule).value.website else None)
  {
    var m := Names.MatchLastFirst(e.rawName, Names.DirectoryChar).value;
    CicsOffsets(CicsBase(Names.FirstLast(m), StaffModule), e.tags);
    CicsOffsets(CicsBase(Names.FirstLast(m), RawList), e.tags);
  }

  /** The names form a set, so a profile page titled with the reordered
      name adds nothing. */
  lemma ProfileNameOnce(e: CicsEntry, v: Variant)
    requires CicsRecord(e, v).Some? && StartsWith(e.href, "/")
    requires e.pageTitle == Names.FirstLast(Names.MatchLastFirst(e.rawName, Names.DirectoryChar).value)
    ensures |CicsRecord(e, v).value.names| == 1
  {
    assert CicsRecord(e, v).value.names == {e.pageTitle};
  }

  // ---------------------------------------------------------------------
  // The mathematics directory

  /** One row of the mathematics directory: the link's text and `href`, the
      `href` group of the email script (`None` when the script or its link is
      missing), the texts of the attribute tags found, and, for a relative
      link, the photo's `src` and the personal web page's `href` if the
      profile page has them. */
  datatype MathEntry = MathEntry(
    name: string,
    href: string,
    emailHref: Option<string>,
    tags: map<Field, string>,
    photo: Option<string>,
    personalWebsite: Option<string>)

  const MathDomain: string := "https://www.math.umass.edu"

  /** The website of a mathematics row: a relative link gets the domain, and
      a personal web page then replaces it. */
  function MathWebsite(e: MathEntry): (w: string)
    ensures StartsWith(e.href, "/") && e.personalWebsite.Some? ==> w == e.personalWebsite.value
    ensures StartsWith(e.href, "/") && e.personalWebsite.None? ==> w == MathDomain + e.href
    ensures !StartsWith(e.href, "/") ==> w == e.href
  {
    if StartsWith(e.href, "/") then
      if e.personalWebsite.Some? then e.personalWebsite.value else MathDomain + e.href
    else e.href
  }

  /** The record of one mathematics row; `None` when the email script is
      missing (the source's assertions fail). `unescape` is
      `html.unescape`. */
  function MathRecord(e: MathEntry, unescape: string -> string): (r: Option<StaffRecord>)
    ensures r.None? <==> e.emailHref.None?
    ensures r.Some? ==> (r.value.names == {e.name} && r.value.department == Some("Mathematics")
      && r.value.email == Some(Drop(unescape(e.emailHref.value), 7))
      && r.value.website == Some(MathWebsite(e))
      && r.value.photo == (if StartsWith(e.href, "/") then e.photo else None)
      && r.value.title == (if Title in e.tags then Some(e.tags[Title]) else None)
      && r.value.phone == (if Phone in e.tags then Some(e.tags[Phone]) else None)
      && r.value.office == (if Office in e.tags then Some(e.tags[Office]) else None))
  {
    if e.emailHref.None? then None
    else
      var base := StaffRecord({e.name}, Some("Mathematics"), None, Some(Drop(unescape(e.emailHref.value), 7)),
        None, None, Some(MathWebsite(e)), if StartsWith(e.href, "/") then e.photo else None);
      MathOffsets(base, e.tags);
      Some(ApplyAttributes(base, e.tags, MathAttributes))
  }

  /** An unescaped link "mailto:address" gives the address. */
  lemma MailtoDropped(e: MathEntry, unescape: string -> string, address: string)
    requires e.emailHref.Some? && unescape(e.emailHref.value) == "mailto:" + address
    ensures MathRecord(e, unescape).Some? && MathRecord(e, unescape).value.email == Some(address)
  {
    assert ("mailto:" + address)[7..] == address;
  }

  // ---------------------------------------------------------------------
  // The lists

  /** All values, or `None` as soon as one row fails. */
  function Collect<T>(xs: seq<Option<T>>): Option<seq<T>>
    decreases |xs|
  {
    if xs == [] then Some([])
    else
      match Collect(xs[..|xs| - 1])
      case None => None
      case Some(l) => if xs[|xs| - 1].None? then None else Some(l + [xs[|xs| - 1].value])
  }

  /** The list is built exactly when every row gives a value, and then it
      holds them in row order. */
  lemma {:induction false} CollectShape<T>(xs: seq<Option<T>>)
    ensures Collect(xs).Some? <==> forall i :: 0 <= i < |xs| ==> xs[i].Some?
    ensures Collect(xs).Some? ==> (|Collect(xs).value| == |xs|
      && forall i :: 0 <= i < |xs| ==> xs[i] == Some(Collect(xs).value[i]))
    decreases |xs|
  {
    if xs != [] {
      var init := xs[..|xs| - 1];
      CollectShape(init);
      assert forall i :: 0 <= i < |init| ==> init[i] == xs[i];
    }
  }

  /** One missing value spoils the whole list. */
  lemma CollectNone<T>(xs: seq<Option<T>>, i: int)
    requires 0 <= i < |xs| && xs[i].None?
    ensures Collect(xs).None?
  {
    CollectShape(xs);
  }

  lemma CollectSnoc<T>(xs: seq<Option<T>>, x: T)
    requires Collect(xs).Some?
    ensures Collect(xs + [Some(x)]) == Some(Collect(xs).value + [x])
  {
    assert (xs + [Some(x)])[..|xs|] == xs;
  }

  lemma {:induction false} CollectAppend<T>(a: seq<Option<T>>, b: seq<Option<T>>)
    requires Collect(a).Some? && Collect(b).Some?
    ensures Collect(a + b) == Some(Collect(a).value + Collect(b).value)
    decreases |b|
  {
    if b == [] {
      assert a + b == a;
      assert Collect(a).value + [] == Collect(a).value;
    } else {
      var bi := b[..|b| - 1];
      var x := b[|b| - 1];
      assert b == bi + [x];
      assert (a + b) == (a + bi) + [x];
      CollectShape(b);
      CollectShape(bi);
      assert forall i :: 0 <= i < |bi| ==> bi[i] == b[i];
      CollectAppend(a, bi);
      assert x.Some?;
      assert x == Some(x.value);
      CollectSnoc(a + bi, x.value);
      CollectSnoc(bi, x.value);
      assert Collect(a).value + (Collect(bi).value + [x.value]) == (Collect(a).value + Collect(bi).value) + [x.value];
    }
  }

  lemma AppendAssoc<T>(a: seq<T>, b: seq<T>, c: seq<T>)
    ensures a + b + c == a + (b + c)
  {
  }

  /** A joined list is built exactly when both parts are, and it is their
      concatenation. */
  lemma CollectSplit<T>(a: seq<Option<T>>, b: seq<Option<T>>)
    ensures Collect(a + b).Some? <==> Collect(a).Some? && Collect(b).Some?
    ensures Collect(a + b).Some? ==> Collect(a + b) == Some(Collect(a).value + Collect(b).value)
  {
    CollectShape(a);
    CollectShape(b);
    CollectShape(a + b);
    if Collect(a + b).Some? {
      assert forall i :: 0 <= i < |a| ==> (a + b)[i] == a[i];
      assert forall i :: 0 <= i < |b| ==> (a + b)[|a| + i] == b[i];
    }
    if Collect(a).Some? && Collect(b).Some? {
      CollectAppend(a, b);
    }
  }

  /** `f` applied to every row. */
  function MapRows<E, T>(rows: seq<E>, f: E -> T): (r: seq<T>)
    ensures |r| == |rows| && forall i :: 0 <= i < |rows| ==> r[i] == f(rows[i])
  {
    seq(|rows|, i requires 0 <= i < |rows| => f(rows[i]))
  }

  lemma MapRowsSnoc<E, T>(rows: seq<E>, f: E -> T, i: nat)
    requires i < |rows|
    ensures MapRows(rows[..i + 1], f) == MapRows(rows[..i], f) + [f(rows[i])]
  {
  }

  lemma MapRowsAppend<E, T>(a: seq<E>, b: seq<E>, f: E -> T)
    ensures MapRows(a + b, f) == MapRows(a, f) + MapRows(b, f)
  {
  }

  function CicsRow(v: Variant): CicsEntry -> Option<StaffRecord> {
    e => CicsRecord(e, v)
  }

  function MathRow(unescape: string -> string): MathEntry -> Option<StaffRecord> {
    e => MathRecord(e, unescape)
  }

  function CicsResults(entries: seq<CicsEntry>, v: Variant): seq<Option<StaffRecord>> {
    MapRows(entries, CicsRow(v))
  }

  function MathResults(entries: seq<MathEntry>, unescape: string -> string): seq<Option<StaffRecord>> {
    MapRows(entries, MathRow(unescape))
  }

  /** The staff list, appended to row by row. */
  class StaffList {
    var records: seq<StaffRecord>

    constructor()
      ensures records == []
    {
      records := [];
    }

    /** The attribute loop: each found tag's text, minus its label, is set on
        its field. */
    static method SetAttributes(staff: StaffRecord, tags: map<Field, string>, attrs: seq<(Field, nat)>)
      returns (r: StaffRecord)
      ensures r == ApplyAttributes(staff, tags, attrs)
    {
      r := staff;
      for k := 0 to |attrs|
        invariant r == ApplyAttributes(staff, tags, attrs[..k])
      {
        assert attrs[..k + 1][..k] == attrs[..k];
        var (attribute, offset) := attrs[k];
        if attribute in tags {
          r := SetField(r, attribute, Drop(tags[attribute], offset));
        }
      }
      assert attrs[..|attrs|] == attrs;
    }

    /** One CICS row, with its attribute loop. */
    static method BuildCicsRecord(e: CicsEntry, v: Variant) returns (r: Option<StaffRecord>)
      ensures r == CicsRecord(e, v)
    {
      var nameMatch := Names.MatchLastFirst(e.rawName, Names.DirectoryChar);
      if nameMatch.None? {
        return None;
      }
      var staff := CicsBase(Names.FirstLast(nameMatch.value), v);
      staff := SetAttributes(staff, e.tags, CicsAttributes);
      ghost var attributed := staff;
      if StartsWith(e.href, "/") {
        staff := staff.(website := Some(CicsDomain + e.href), names := staff.names + {e.pageTitle});
        if e.headshot.Some? && |e.headshot.value| > 0 {
          staff := staff.(photo := e.headshot);
        }
      } else if v == StaffModule {
        staff := staff.(website := Some(e.href));
      }
      assert staff == WithLink(attributed, e, v);
      r := Some(staff);
    }

    /** The CICS directory loop; `ok` is false when a row's name does not
        match, and the scrape then fails. */
    method ScrapeCicsStaff(entries: seq<CicsEntry>, v: Variant) returns (ok: bool)
      modifies this
      ensures ok <==> Collect(CicsResults(entries, v)).Some?
      ensures ok ==> records == old(records) + Collect(CicsResults(entries, v)).value
    {
      ghost var start := records;
      ghost var built: seq<StaffRecord> := [];
      for i := 0 to |entries|
        invariant Collect(CicsResults(entries[..i], v)) == Some(built)
        invariant records == start + built
      {
        var staff := BuildCicsRecord(entries[i], v);
        ghost var results := CicsResults(entries, v);
        assert results[i] == staff;
        if staff.None? {
          CollectNone(results, i);
          return false;
        }
        MapRowsSnoc(entries, CicsRow(v), i);
        CollectSnoc(CicsResults(entries[..i], v), staff.value);
        built := built + [staff.value];
        records := records + [staff.value];
      }
      assert entries[..|entries|] == entries;
      return true;
    }

    /** The mathematics directory loop; `ok` is false when a row has no
        email script, and the scrape then fails. */
    method ScrapeMathStaff(entries: seq<MathEntry>, unescape: string -> string) returns (ok: bool)
      modifies this
      ensures ok <==> Collect(MathResults(entries, unescape)).Some?
      ensures ok ==> records == old(records) + Collect(MathResults(entries, unescape)).value
    {
      ghost var start := records;
      ghost var built: seq<StaffRecord> := [];
      for i := 0 to |entries|
        invariant Collect(MathResults(entries[..i], unescape)) == Some(built)
        invariant records == start + built
      {
        var e := entries[i];
        if e.emailHref.None? {
          assert MathResults(entries, unescape)[i] == None;
          CollectNone(MathResults(entries, unescape), i);
          return false;
        }
        var staff := MathRecord(e, unescape).value;
        MapRowsSnoc(entries, MathRow(unescape), i);
        assert MathRow(unescape)(entries[i]) == Some(staff);
        CollectSnoc(MathResults(entries[..i], unescape), staff);
        built := built + [staff];
        records := records + [staff];
      }
      assert entries[..|entries|] == entries;
      return true;
    }

    /** Both directories, CICS first. */
    method ScrapeBoth(cics: seq<CicsEntry>, math: seq<MathEntry>, unescape: string -> string) returns (ok: bool)
      modifies this
      ensures ok <==> Collect(CicsResults(cics, StaffModule) + MathResults(math, unescape)).Some?
      ensures ok ==> records == old(records) + Collect(CicsResults(cics, StaffModule) + MathResults(math, unescape)).value
    {
      ghost var c := CicsResults(cics, StaffModule);
      ghost var m := MathResults(math, unescape);
      CollectSplit(c, m);
      ok := ScrapeCicsStaff(cics, StaffModule);
      if !ok {
        return;
      }
      ok := ScrapeMathStaff(math, unescape);
      if ok {
        AppendAssoc(old(records), Collect(c).value, Collect(m).value);
      }
    }
  }

  /** `scrape_staff`: the CICS staff in page order, then the mathematics
      staff in page order; `None` when a row fails. */
  method ScrapeStaff(cics: seq<CicsEntry>, math: seq<MathEntry>, unescape: string -> string)
    returns (r: Option<seq<StaffRecord>>)
    ensures r == Collect(CicsResults(cics, StaffModule) + MathResults(math, unescape))
  {
    var list := new StaffList();
    var ok := list.ScrapeBoth(cics, math, unescape);
    ghost var all := Collect(CicsResults(cics, StaffModule) + MathResults(math, unescape));
    if !ok {
      assert all.None?;
      return None;
    }
    assert list.records == [] + all.value == all.value;
    r := Some(list.records);
    assert all == Some(all.value);
  }

  /** The CICS staff come first: the combined list is the CICS list followed
      by the mathematics list, and each holds one record per row, in row
      order. */
  lemma StaffOrder(cics: seq<CicsEntry>, math: seq<MathEntry>, unescape: string -> string)
    requires Collect(CicsResults(cics, StaffModule) + MathResults(math, unescape)).Some?
    ensures Collect(CicsResults(cics, StaffModule)).Some? && Collect(MathResults(math, unescape)).Some?
    ensures Collect(CicsResults(cics, StaffModule) + MathResults(math, unescape)).value
      == Collect(CicsResults(cics, StaffModule)).value + Collect(MathResults(math, unescape)).value
    ensures |Collect(CicsResults(cics, StaffModule)).value| == |cics|
    ensures forall i :: 0 <= i < |cics| ==> CicsRecord(cics[i], StaffModule) == Some(Collect(CicsResults(cics, StaffModule)).value[i])
  {
    CollectSplit(CicsResults(cics, StaffModule), MathResults(math, unescape));
    CollectShape(CicsResults(cics, StaffModule));
  }

  /** `scrape_raw_staff_list` of src/scraper/web.py. */
  method ScrapeRawStaffList(entries: seq<CicsEntry>) returns (r: Option<seq<StaffRecord>>)
    ensures r == Collect(CicsResults(entries, RawList))
  {
    var list := new StaffList();
    var ok := list.ScrapeCicsStaff(entries, RawList);
    ghost var c := Collect(CicsResults(entries, RawList));
    if !ok {
      assert c.None?;
      return None;
    }
    assert list.records == [] + c.value == c.value;
    r := Some(list.records);
    assert c == Some(c.value);
  }

  /** Every record of the raw list has no department. */
  lemma RawListNoDepartment(entries: seq<CicsEntry>)
    requires Collect(CicsResults(entries, RawList)).Some?
    ensures forall s :: s in Collect(CicsResults(entries, RawList)).value ==> s.department == None
  {
    CollectShape(CicsResults(entries, RawList));
  }
}
