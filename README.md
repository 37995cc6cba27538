# UMass CICS course scraper — a verified model of its core

The scraper collects the course catalogue and the staff directory of the
UMass College of Information and Computer Sciences and of the Department of
Mathematics and Statistics. This project models the logic that runs once the
HTML pages have been turned into values, and proves properties of it:

- **Course catalogue merge.** Description pages are visited newest semester
  first and folded into a dictionary keyed by `"SUBJECT NUMBER"`
  (`Catalogue`, for `src/scraper/web.py` and `src/scraper/descriptions.py`):
  - the first header of a course creates its record;
  - later headers only add past offerings and replace the instructors of
    their own semester;
  - the mathematics pass renames STAT to STATISTIC, skips HONORS and guards
    against repeating the most recent offering;
  - a frequency table is laid over the courses already present.
- **Older scraper in `src/web.py`** (`Legacy`):
  - instructor sets are unioned;
  - "Staff" placeholders are dropped;
  - staff sets become lists once the CICS pass ends;
  - a mathematics course whose key already exists is skipped;
  - staff records are built with the literal alias table.
- **Frequency tables** (`Frequency`): the CICS and mathematics row rules, the
  slash normaliser, and the dictionary in which the last row wins.
- **Staff directories** (`StaffDirectory`, with `Names` for the
  `"Last, First"` pattern):
  - the name is reordered to `"First Last"`;
  - attribute offsets are applied;
  - a relative profile link gives the website, and the profile page adds its
    title to the names;
  - the mathematics `mailto:` prefix is cut off;
  - CICS staff come before mathematics staff.
- **Value types**:
  - `Semester` (`Semesters`): validation, equality, string forms, the code's
    own ordering, `next` and `previous`;
  - `CourseID` (`CourseIds`), with its parser.
- **Text cleanup**: the three `clean_text` variants (`ScraperText`,
  `UtilText`).
- **Command-line parser** of `src/main.py` (`Cli`).

Where the source mutates state, the model does too:

- the course dictionaries are fields of the classes `Catalogue.Catalogue`
  and `Legacy.CourseMapBuilder`;
- the staff list is a field of `StaffDirectory.StaffList`;
- the cleanup and argument loops are methods with loop invariants.

Each method is proved equal to a specification function (a left fold over
the visited observations), and the promised properties are lemmas about
those functions.

Inputs that the source reads from the network are parameters:

- each CICS description page is a map entry keyed by (two-digit year, query
  id); a missing entry is a page that could not be fetched;
- each mathematics page is a map entry keyed by semester id;
- the frequency tables and the staff directories are row sequences holding
  the cell texts;
- the current year is a number;
- `unidecode` and `html.unescape` are function parameters.

The errors of the source are modelled as values:

- a failing `assert` or `sys.exit` becomes an `Err` or `None`;
- an `IndexError` becomes an error constructor as well.

## Model

| member | source | states |
|---|---|---|
| ScraperText.Blank | src/scraper/shared.py:12-13 | every NBSP, newline and tab becomes a space; all other characters and the length are kept |
| ScraperText.SqueezeNoDouble | src/scraper/shared.py:15-16 | the reference for the collapsing loop (each maximal run of spaces becomes one space) leaves no two consecutive spaces |
| ScraperText.SqueezeFixed | src/scraper/shared.py:15-16 | text without a double space is left alone, so the loop stops exactly at the reference's result |
| ScraperText.SqueezeHalve | src/scraper/shared.py:15-16 | one `replace("  ", " ")` pass does not change the collapsed result, so the loop computes the reference |
| ScraperText.HalveShrinks | src/scraper/shared.py:15-16 | a pass never lengthens the text and shortens it whenever a double space is present, so the loop terminates |
| ScraperText.SqueezeNonSpace | src/scraper/shared.py:15-16 | collapsing keeps every non-whitespace character, in order |
| ScraperText.BlankNonSpace | src/scraper/shared.py:12-13 | the replacement pass changes no non-whitespace character |
| ScraperText.CleanedProperties | src/web.py:24-31 | the result has no NBSP, newline or tab and no two consecutive spaces; it neither starts nor ends with whitespace; and it keeps the input's non-whitespace characters in order |
| ScraperText.CleanedIdempotent | src/scraper/shared.py:11-18 | cleaning twice is cleaning once |
| ScraperText.CleanText | src/scraper/shared.py:11-18 | the replacement loop and the collapsing loop return the cleaned text, with all the properties above |
| Strings.SpaceRunEnd | src/shared/util.py:7 | the greedy end of a whitespace run: everything before it is whitespace, and the character at it is not |
| UtilText.SearchRun | src/shared/util.py:7-8 | `re.search(r"\s{2,}")`: None iff no two adjacent whitespace characters exist; otherwise the leftmost maximal run of two or more |
| UtilText.SpliceShorter | src/shared/util.py:7-10 | every iteration shortens the text, so the loop terminates |
| UtilText.SpliceKeepsHead | src/shared/util.py:5-10 | an iteration keeps a first character that is not whitespace |
| UtilText.CollapseNoRun | src/shared/util.py:7 | after the loop no run of two or more whitespace characters is left |
| UtilText.CollapseShorter | src/shared/util.py:7-10 | the loop never lengthens its input |
| UtilText.CollapseKeepsHead | src/shared/util.py:5-10 | the first character of the stripped text survives the loop |
| UtilText.UtilCleanedProperties | src/shared/util.py:4-12 | no whitespace run is left; the result is no longer than the stripped input and starts with its first character |
| UtilText.UtilCleanedUnchanged | src/shared/util.py:4-12 | stripped text without whitespace runs comes back unchanged |
| UtilText.DropsCharacterAfterRun | src/shared/util.py:8-10 | each splice also drops the character after the run: `"x  y"` becomes `"x "` |
| UtilText.CleanText | src/shared/util.py:4-12 | the strip and the `re.search` loop return the specification result, with no whitespace run, no longer than the stripped input, and starting with its first character |
| Semesters.YearFirstNeverMatches | src/shared/semester.py:6-16 | the year-first alternative can never match, so `is_semester` holds iff the text is a season, a space and a `20dd` year |
| Semesters.StrIsSemester | src/shared/semester.py:6-16 | the string form of a valid semester in the 2000s is accepted by `is_semester` |
| Semesters.IsSemesterParses | src/shared/semester.py:6-16 | every accepted text is the string form of a valid semester, possibly followed by a newline that `$` allows |
| Semesters.SeasonIndex | src/shared/semester.py:19 | the index of a season in `SEASON_LIST` names that season |
| Semesters.NewSemester | src/shared/semester.py:34-39 | the constructor succeeds iff the year is four digits and the season is in the list; otherwise it fails with the assertion error or with the `index` error |
| Semesters.YearWithNewline | src/shared/semester.py:35 | `^\d{4}$` also accepts a year followed by a newline |
| Semesters.FromText | src/shared/semester.py:23-32 | `from_text` never succeeds; on accepted text it fails at `int(match.lastgroup)` |
| Semesters.EqualityLaws | src/shared/semester.py:41-53 | `==` holds iff season and year agree, `!=` is its negation, and equal semesters hash equally |
| Semesters.StrInjective | src/shared/semester.py:52-53 | two valid semesters with the same string form are equal |
| Semesters.SwappedStrInjective | src/shared/semester.py:97-98 | two valid semesters with the same swapped form (year, space, season) are equal |
| Semesters.SwappedStrRejected | src/shared/semester.py:97-98 | the swapped form of a valid semester is never accepted by `is_semester` |
| Semesters.OrderDuality | src/shared/semester.py:55-69 | `a < b` iff `b > a`, `a <= b` iff `b >= a`, `<` is irreflexive and `<=` reflexive |
| Semesters.LtTransitive | src/shared/semester.py:55-57 | `<` is transitive |
| Semesters.LtNotChronological | src/shared/semester.py:55-69 | Fall 2021 and Spring 2022 are unrelated by `<=` and `>=`, so the order is not chronological |
| Semesters.NextCycles | src/shared/semester.py:79-86 | `next` keeps the year and advances the season index cyclically, Winter to Spring |
| Semesters.PreviousSteps | src/shared/semester.py:88-95 | `previous` fails iff the season is Spring (it subtracts from a string year); otherwise it keeps the year and steps the season back |
| Semesters.NextPreviousInverse | src/shared/semester.py:79-95 | `previous` undoes `next` except from Winter, and `next` undoes `previous` except from Spring |
| CourseIds.NewCourseId | src/shared/courses.py:23-41 | the id is the upper-cased subject, a space and the upper-cased number, while the accessors return the arguments as given |
| CourseIds.FromText | src/shared/courses.py:13-21 | the cleaned, upper-cased text must satisfy `is_course_id` and split on spaces into exactly two parts; the result is `CourseID` of the first and second part, so its subject and number joined by a space are its id |
| CourseIds.RoundTrip | src/shared/courses.py:13-29 | for an upper-case subject and number forming a valid id, parsing the string form gives the same course id back |
| CourseIds.ExtraWordFails | src/shared/courses.py:5-19 | the pattern has no end anchor, so a third word still passes `is_course_id`, but the two-part split then fails |
| Frequency.NormaliseFrequency | src/scraper/frequency.py:19-24 | "Fall/Spring/Summer" becomes "Fall, Spring, and Summer"; any other result contains no "/" |
| Frequency.NormaliseSpacedSlash | src/scraper/frequency.py:24 | `"A / B"` becomes `"A and B"` |
| Frequency.NormaliseSinglePass | src/scraper/frequency.py:24 | the space pass is a single left-to-right pass: three spaces leave two |
| Frequency.CicsPair | src/scraper/frequency.py:14-17 | the CICS key is `"subject number"` upper-cased as a whole, so the subject and the number cell are both upper-cased; the frequency cell is kept |
| Frequency.MathPair | src/scraper/frequency.py:19-26 | the mathematics key is the upper-cased first cell, and the frequency is the normaliser's output for the frequency cell ("Fall, Spring, and Summer" for the special value, never a "/") |
| Frequency.Pairs | src/scraper/web.py:160-175 | all CICS rows in order, then all mathematics rows |
| Frequency.ToMapKeys | src/scraper/frequency.py:28-43 | the dictionary has exactly the ids of the rows |
| Frequency.ToMapLastWins | src/scraper/frequency.py:40-43 | an id holds the frequency of its last row |
| Frequency.ToMapAppend | src/scraper/frequency.py:28-43 | the dictionary of two row lists is the first overridden by the second |
| Frequency.MathBeatsCics | src/scraper/frequency.py:28-43 | mathematics rows override CICS rows with the same id |
| Frequency.CourseFrequencyList | src/scraper/web.py:142-178 | the list loop returns exactly the pairs of the rows |
| Frequency.ScrapeCourseFrequency | src/scraper/frequency.py:10-46 | the dictionary loop returns the dictionary of the pairs |
| Catalogue.CicsStep | src/scraper/web.py:77-128 | an INFOSEC header changes nothing. Otherwise the key set grows by the header's key and every other key is untouched. An existing course keeps its fixed fields, gets the semester appended to its past offerings and has that semester's instructors replaced. A new course gets this semester as most recent offering, no past offerings, the header's title, description and website, and that semester's instructors |
| Catalogue.CicsQueriesOrder | src/scraper/web.py:64-68 | the pages are visited from the two-digit year after the current one down to 18, the fall query 7 before the spring query 3 |
| Catalogue.QueriesAboveShape | src/scraper/web.py:65-66 | the visiting order from an arbitrary top year |
| Catalogue.SemesterNames | src/scraper/web.py:67-68 | query 7 names "Fall 20yy" and query 3 names "Spring 20yy" |
| Catalogue.CicsFoldKeys | src/scraper/web.py:83-116 | after the fold, the keys are those at the start plus those of every header that is not INFOSEC |
| Catalogue.CicsFoldKeeps | src/scraper/web.py:92-96 | a course's title, description, website and most recent offering are never overwritten |
| Catalogue.CicsFoldFirstSeen | src/scraper/web.py:98-116 | a course's fixed fields come from the first header that names it |
| Catalogue.CicsFoldHistory | src/scraper/descriptions.py:93-132 | the offerings of a course are exactly the semesters of the pages showing it, in visiting order |
| Catalogue.MathStep | src/scraper/descriptions.py:176-220 | HONORS is skipped. For an existing key the semester is appended unless it equals the most recent offering. A new key gets the semester, no past offerings, no instructors, the article's title and description, and prerequisites only when the tag is present |
| Catalogue.MathIds | src/scraper/descriptions.py:150 | the semester ids go from start+1 down to start-9 |
| Catalogue.MathFoldKeeps | src/scraper/descriptions.py:188-194 | the mathematics pass never changes a present course's fixed fields or instructors |
| Catalogue.MathFoldKeys | src/scraper/descriptions.py:176-220 | the key set grows by exactly the keys of the articles that are not HONORS |
| Catalogue.EmptyPageSkipped | src/scraper/descriptions.py:154-157 | an id without articles leaves the dictionary unchanged |
| Catalogue.StatRenamed | src/scraper/descriptions.py:180-185 | STAT (in any case) is renamed STATISTIC before the key is formed |
| Catalogue.HonorsCaseSensitive | src/scraper/descriptions.py:176-178 | the HONORS test is case-sensitive: a lower-case "honors" article creates a course |
| Catalogue.PastOfferingRepeats | src/scraper/descriptions.py:188-194 | the guard compares only with the most recent offering, so a semester can repeat in past offerings |
| Catalogue.OverlayIsTableLookup | src/scraper/web.py:52-55 | the overlay adds no course, changes only `frequency`, and sets it from the dictionary of the pairs, where the last pair wins |
| Catalogue.Catalogue.constructor | src/scraper/web.py:47 | the dictionary starts empty |
| Catalogue.Catalogue.AddCicsHeader | src/scraper/web.py:77-128 | the dictionary after one header is the specification step |
| Catalogue.Catalogue.ScrapeCicsPage | src/scraper/web.py:77-130 | the dictionary after one page is the fold over its headers |
| Catalogue.Catalogue.ScrapeCicsYear | src/scraper/web.py:66-130 | the dictionary after one year is the fold over its fall and spring pages |
| Catalogue.Catalogue.ScrapeCicsCourses | src/scraper/web.py:61-134 | the dictionary after the CICS pass is the fold over all pages in visiting order; the CICS pass of `src/scraper/descriptions.py` (lines 57-138) follows the same rule |
| Catalogue.Catalogue.AddMathArticle | src/scraper/descriptions.py:165-220 | the dictionary after one article is the specification step |
| Catalogue.Catalogue.ScrapeMathPage | src/scraper/descriptions.py:154-220 | the dictionary after one semester page is the fold over its articles |
| Catalogue.Catalogue.ScrapeMathCourses | src/scraper/descriptions.py:141-224 | the dictionary after the mathematics pass is the fold over the eleven semester pages in order |
| Catalogue.Catalogue.OverlayFrequency | src/scraper/web.py:52-55 | the loop computes the overlay |
| Catalogue.ScrapeCourses | src/scraper/web.py:45-58 | the result is the CICS fold from an empty dictionary, overlaid with the frequency pairs |
| Catalogue.ScrapedCourseKeys | src/scraper/web.py:45-58 | the returned keys are exactly those of the headers that are not INFOSEC |
| Legacy.PartName | src/web.py:123-125 | a part gives a name iff it does not start with "staff" (in any case) and the name is its stripped, transliterated text |
| Legacy.PartNamesMembers | src/web.py:121-125 | the session set holds exactly the names that some comma-separated part gives |
| Legacy.PlaceholderDropped | src/web.py:121-125 | an instructor text that is only "Staff" contributes no name |
| Legacy.Step | src/web.py:101-148 | an unmatched or INFOSEC header changes nothing. An existing course gets the union of its staff and the session staff and nothing else. A new course gets the subject as written, the upper-cased id, title, description and staff, the anchor's href as website iff it is non-empty, and no frequency. Other keys are untouched, and every staff field stays a set |
| Legacy.Fold | src/web.py:92-148 | the fold keeps every staff field a set |
| Legacy.FoldUnion | src/web.py:127-131 | title, description and website stay from the first observation, and the staff set only grows |
| Legacy.MathStep | src/web.py:164-194 | existing entries are never touched. An unmatched or HONORS article, or one whose key exists (from CICS or an earlier page), is skipped. Otherwise a course without staff is added |
| Legacy.MathIds | src/web.py:157-159 | the semester ids go from start down to 88 |
| Legacy.MathFoldKeeps | src/web.py:181-194 | the mathematics pass keeps every existing entry, and the courses it adds have no staff field |
| Legacy.LowerStatNotRenamed | src/web.py:176-180 | the STAT test is case-sensitive: "stat 515" keeps the key "STAT 515" |
| Legacy.CicsPair | src/web.py:57-64 | the CICS key is subject cell, space, number cell, not upper-cased |
| Legacy.LowerCaseRowMissesCourse | src/web.py:57-64 | a lower-case table row cannot reach the upper-cased course key |
| Legacy.CourseFrequency | src/web.py:50-83 | all CICS pairs in order, then all mathematics pairs |
| Legacy.OverlayIsTableLookup | src/web.py:196-198 | the overlay adds no course and sets the frequency of the last pair with each id |
| Legacy.CourseMapBuilder.constructor | src/web.py:87 | the map starts empty |
| Legacy.CourseMapBuilder.CollectSessionStaff | src/web.py:114-125 | the loop over the parts computes the session set |
| Legacy.CourseMapBuilder.AddHeader | src/web.py:101-148 | the map after one header is the specification step |
| Legacy.CourseMapBuilder.ScrapeCicsPage | src/web.py:101-148 | the map after one page is the fold over its headers |
| Legacy.CourseMapBuilder.ScrapeCicsYear | src/web.py:93-148 | the map after one year is the fold over its two pages |
| Legacy.CourseMapBuilder.ScrapeCics | src/web.py:90-148 | the map after the CICS pass is the fold over all pages, newest first |
| Legacy.CourseMapBuilder.SetToList | src/web.py:151 | `list(set)` lists each member exactly once |
| Legacy.CourseMapBuilder.ListStaff | src/web.py:150-151 | every staff set becomes a list of exactly its members, and nothing else changes |
| Legacy.CourseMapBuilder.ScrapeMathPage | src/web.py:164-194 | the map after one page is the mathematics fold over its articles |
| Legacy.CourseMapBuilder.ScrapeMath | src/web.py:153-194 | the map after the mathematics pass is the fold over the pages from start down to 88 |
| Legacy.CourseMapBuilder.OverlayFrequency | src/web.py:196-198 | the loop computes the overlay |
| Legacy.ScrapeCourses | src/web.py:86-200 | the result is the CICS fold with staff listed, then the mathematics fold, then the frequency overlay |
| Legacy.StaffShape | src/web.py:150-194 | in the result, a course has a staff list iff it came from the CICS pass, and no staff field otherwise |
| Legacy.StaffOf | src/web.py:213-249 | the record exists iff the name matches and the href is non-empty. The first name is "First Last". The names are exactly "First Last", then the page title if the href is relative and the title differs from it, then the alias of "First Last" if it has one. A relative href gives the CICS website; an absolute href is kept. Title, photo and email are copied and courses is empty |
| Legacy.StaffListOfOk | src/web.py:203-251 | the list is produced iff every entry yields a record |
| Legacy.StaffListOfShape | src/web.py:207-249 | a produced list holds the record of each entry, in order |
| Legacy.StaffListOfError | src/web.py:216-222 | a failing entry ends the scrape: later entries change nothing |
| Legacy.StaffInformation | src/web.py:213-249 | the steps for one entry (match, reorder, domain and page title for a relative href, alias) compute that entry's specification record or its failure |
| Legacy.RetrieveStaffInformation | src/web.py:203-251 | the loop computes the specification list |
| Legacy.AliasRepeated | src/web.py:239-247 | "Lan, Andrew" with page title "Shiting Lan" gets the alias repeated: the alias is appended without checking the names |
| Legacy.LanMatch | src/web.py:217 | "Lan, Andrew" matches with groups "Lan" and "Andrew" |
| Names.MatchLastFirst | src/scraper/staff.py:48 | a match has a non-empty first group of class characters followed by a comma, and a non-empty second group of class characters |
| Names.MatchRoundTrip | src/scraper/staff.py:48 | `"last, first"` is matched back as (last, first) when the given name has no comma and does not start with whitespace |
| Names.NoCommaNoMatch | src/scraper/staff.py:48-49 | text without a comma does not match |
| Names.CommaInFamilyName | src/scraper/staff.py:10-12 | because the class contains the comma, "Doe, Jr., Jane" has family name "Doe, Jr." |
| Names.LastCommaWins | src/scraper/staff.py:48 | the greedy first group cuts at the last comma |
| Names.AsciiDirectory | src/scraper/staff.py:10-12 | ASCII letters and `,.'-` and the space belong to the directory class |
| Names.AsciiWord | src/web.py:217 | ASCII letters and `.-'` and the space belong to `[\w.\-' ]` |
| StaffDirectory.ApplyAttributesFields | src/scraper/staff.py:61-69 | each listed attribute is its tag's text minus the offset, or is unchanged when the tag is missing; other fields are untouched |
| StaffDirectory.CicsOffsets | src/scraper/staff.py:54-69 | title keeps its whole text; email, phone and office drop three characters; a missing tag leaves the field unset |
| StaffDirectory.MathOffsets | src/scraper/staff.py:140-150 | office, phone and title keep their whole text |
| StaffDirectory.CicsRecord | src/scraper/staff.py:42-87 | the record exists iff the name matches. A relative href gives names {First Last, page title}, the CICS website and the headshot source as photo when it is non-empty (no photo otherwise). An absolute href gives names {First Last} and keeps the href. The department is "CICS" |
| StaffDirectory.CicsRecordAttributes | src/scraper/web.py:198-213 | the attributes follow the CICS offsets table |
| StaffDirectory.VariantsAgree | src/scraper/web.py:181-233 | the raw list differs from the staff module only in having no department and no website for an absolute href |
| StaffDirectory.ProfileNameOnce | src/scraper/staff.py:71-77 | a page title equal to the display name is not added twice |
| StaffDirectory.MathWebsite | src/scraper/staff.py:105-125 | a relative href gets the mathematics domain, which a personal webpage replaces; an absolute href is kept |
| StaffDirectory.MathRecord | src/scraper/staff.py:97-161 | the record exists iff the email script matched. It has department "Mathematics", the email as the unescaped href minus seven characters, the website rule, and fields absent when unscraped |
| StaffDirectory.MailtoDropped | src/scraper/staff.py:135-137 | a `mailto:` href yields just the address |
| StaffDirectory.StaffList.constructor | src/scraper/staff.py:29 | the list starts empty |
| StaffDirectory.StaffList.SetAttributes | src/scraper/staff.py:61-69 | the attribute loop sets each found tag's text, minus its label offset, on its field, exactly as the table specification says |
| StaffDirectory.StaffList.BuildCicsRecord | src/scraper/staff.py:43-84 | the attribute loop builds the specification record |
| StaffDirectory.StaffList.ScrapeCicsStaff | src/scraper/staff.py:38-89 | the pass succeeds iff every row matches, and then appends the rows' records in page order |
| StaffDirectory.StaffList.ScrapeMathStaff | src/scraper/staff.py:92-166 | the pass succeeds iff every row has an email script, and then appends the rows' records in page order |
| StaffDirectory.StaffList.ScrapeBoth | src/scraper/staff.py:31-32 | the two passes together append the records of CICS rows then mathematics rows |
| StaffDirectory.ScrapeStaff | src/scraper/staff.py:26-35 | the result is the records of all CICS rows followed by all mathematics rows, or a failure |
| StaffDirectory.StaffOrder | src/scraper/staff.py:29-35 | all CICS staff, in page order, come before all mathematics staff |
| StaffDirectory.ScrapeRawStaffList | src/scraper/web.py:181-233 | the raw list is the records of the rows in page order, or a failure |
| StaffDirectory.RawListNoDepartment | src/scraper/web.py:195 | raw-list records carry no department |
| Cli.Words | src/main.py:17-18 | the program name is dropped and every other argument is lower-cased |
| Cli.ParseWordsSnoc | src/main.py:17-34 | one more argument: an earlier exit stands; an option only sets the flag; a second mode word exits with "Mode is already defined."; otherwise the word must name a mode |
| Cli.ParseArgs | src/main.py:14-36 | the loop returns the mode and flag, or exits with the message, exactly as the specification says |
| Cli.ErrorStands | src/main.py:25-34 | an exit is final: later arguments are never read |
| Cli.HeadlessAnywhere | src/main.py:20-23 | the position of "--headless" does not matter |
| Cli.SameModeTwice | src/main.py:25-26 | naming the same mode twice still exits with "Mode is already defined." |
| Cli.UpperCaseMode | src/main.py:17-23 | "REBASE" and "--Headless" are read as rebase and the flag |

## Left out

- HTTP fetching, retries and sleeps (`src/scraper/shared.py:21-38`,
  `src/web.py:42-47`): these are I/O. Pages are map entries, and a page
  that cannot be fetched is a missing entry.
- BeautifulSoup selectors and `get_tag_text`: observations (headers,
  articles, table rows, directory rows) hold the texts they return.
- Title-pattern matches: headers and articles carry the groups they match.
  In `src/web.py` an unmatched header or article is `None`.
- Selenium browser automation (`src/spire.py`, `src/scraper/spire.py`):
  foreign driver and I/O.
- The academic calendar (`src/scraper/calendar.py`, `src/web.py:254-307`):
  it depends on time-zone conversion and compiles scraped text as a
  regular expression.
- Logging, and the `print` of an unmatched name in `src/web.py`.
- `datetime.now()`: the current year is a parameter.
- `unidecode` and `html.unescape`: uninterpreted function parameters.
- Case mapping and digits are ASCII only. `str.upper`, `str.lower`, `\d`
  and `\w` are modelled on ASCII letters and digits. The `[\w.\-' ]` class
  of `src/web.py` is applied to text that is already transliterated.
- Semesters.FromText: modelled as the failure it always is, not as a
  parser, because `int(match.lastgroup)` cannot succeed.
- A mathematics page of `src/web.py` that cannot be fetched makes the source
  crash. The model treats it as a page without articles.
- Module wiring that cannot run is not part of this model:
  - `src/scraper/scraper.py`;
  - the `fetch`/`soup` references and the `None` return of
    `scrape_course_descriptions` in `src/scraper/descriptions.py`;
  - the `retry=` argument at `src/scraper/web.py:72`.
  The merge rules these places call are modelled.
- `src/normalizer/normalizer.py` (a stub) and `src/scraper/cics.py` (type
  declarations) declare no behaviour.
- The `Semester` string forms are plain functions. The partners of `__str__`
  are Semesters.StrInjective and Semesters.StrIsSemester; those of
  `swapped_str` are Semesters.SwappedStrInjective and
  Semesters.SwappedStrRejected.
- The assertions that a tag exists (the paragraph, the title tag, the
  description tag and the email script) are modelled as fields that are
  present. Only the name match, the email script and an empty profile href
  are modelled as failures.
- StaffDirectory.MathRecord: the names are modelled as the set `{name}`,
  whereas the source stores the one-element list `[name]`.
- StaffDirectory.StaffRecord: a dictionary key that the source leaves unset
  is modelled as `None`.
- Legacy.StaffOf: the email, title and photo are taken as the texts the
  page gives. A missing tag (which crashes the source) is not modelled.
- Frequency.NormaliseFrequency: its contract states the special case and
  the absence of "/". The exact replacement passes are shown on concrete
  texts by Frequency.NormaliseSpacedSlash and
  Frequency.NormaliseSinglePass.
- The `clean_text` of `src/web.py:24-31` is the same function as that of
  `src/scraper/shared.py:11-18`, so `ScraperText` models both.
- No fuzzy or short-form staff-name resolution exists in the source. Only
  the literal alias table `Legacy.Aliases` (`src/web.py:12-20`) is
  modelled.
