/** The staff-directory name pattern `^(G),\s*(G)`, where `G` is a run of
    one character class: the accented-letter class `REGEXP_NAME_GROUP` of
    src/scraper/web.py and src/scraper/staff.py, or `[\w.\-' ]` in src/web.py.
    The match is written out as the backtracking search the regular
    expression engine performs: the first group is greedy and gives back
    characters until a comma follows it, `\s*` is greedy and gives back
    whitespace until the second group can start, and the second group is
    greedy. */
module Names {
  import opened Wrappers
  import opened Strings

  /** A character class of the pattern. */
  type NameClass = char -> bool

  const AccentedLetters: string :=
    "àáâäãåąčćęèéêëėįìíîïłńòóôöõøùúûüųūÿýżźñçčšžÀÁÂÄÃÅĄĆČĖĘÈÉÊËÌÍÎÏĮŁŃÒÓÔÖÕØÙÚÛÜŲŪŸÝŻŹÑßÇŒÆČŠŽ∂ð"

  /** `REGEXP_NAME_GROUP` of src/scraper/web.py and src/scraper/staff.py. */
  predicate DirectoryChar(c: char) {
    IsAsciiUpper(c) || IsAsciiLower(c) || c in " ,.'-" || c in AccentedLetters
  }

  /** `[\w.\-' ]` of src/web.py, on text already transliterated to ASCII. */
  predicate WordChar(c: char) {
    IsAsciiUpper(c) || IsAsciiLower(c) || IsAsciiDigit(c) || c in "_.-' "
  }

  predicate InClass(c: char, cls: NameClass) {
    cls(c)
  }

  predicate AllInClass(s: string, cls: NameClass) {
    forall i :: 0 <= i < |s| ==> InClass(s[i], cls)
  }

  /** End of the longest run of class characters starting at `i`. */
  function RunEnd(s: string, i: nat, cls: NameClass): (e: nat)
    requires i <= |s|
    ensures i <= e <= |s|
    ensures forall k :: i <= k < e ==> InClass(s[k], cls)
    ensures e == |s| || !InClass(s[e], cls)
    decreases |s| - i
  {
    if i < |s| && InClass(s[i], cls) then RunEnd(s, i + 1, cls) else i
  }

  /** `\s*` gives back whitespace, from `w` down to `lo`, until the second
      group can start. */
  function SecondStart(s: string, lo: nat, w: nat, cls: NameClass): (r: Option<nat>)
    requires lo <= w <= |s|
    ensures r.Some? ==> lo <= r.value <= w && r.value < |s| && InClass(s[r.value], cls)
    ensures r.None? ==> forall k :: lo <= k <= w && k < |s| ==> !InClass(s[k], cls)
    decreases w - lo
  {
    if w < |s| && InClass(s[w], cls) then Some(w)
    else if w > lo then SecondStart(s, lo, w - 1, cls)
    else None
  }

  /** The first group gives back characters, from `p` down to one, until a
      comma follows it and the rest of the pattern matches. */
  function TryComma(s: string, p: nat, cls: NameClass): (r: Option<(string, string)>)
    requires p <= |s|
    requires forall k :: 0 <= k < p ==> InClass(s[k], cls)
    ensures r.Some? ==> (0 < |r.value.0| && |r.value.0| < |s| && r.value.0 == s[..|r.value.0|]
      && s[|r.value.0|] == ',')
    ensures r.Some? ==> 0 < |r.value.1| && AllInClass(r.value.0, cls) && AllInClass(r.value.1, cls)
    decreases p
  {
    if p == 0 then None
    else if p < |s| && s[p] == ',' && SecondStart(s, p + 1, SpaceRunEnd(s, p + 1), cls).Some? then
      var w := SecondStart(s, p + 1, SpaceRunEnd(s, p + 1), cls).value;
      Some((s[..p], s[w..RunEnd(s, w, cls)]))
    else TryComma(s, p - 1, cls)
  }

  /** `re.match(f"^({G}),\s*({G})", s)`, as its two groups: the part before
      the comma and the part after it. */
  function MatchLastFirst(s: string, cls: NameClass): (r: Option<(string, string)>)
    ensures r.Some? ==> (0 < |r.value.0| && |r.value.0| < |s| && r.value.0 == s[..|r.value.0|]
      && s[|r.value.0|] == ',')
    ensures r.Some? ==> 0 < |r.value.1| && AllInClass(r.value.0, cls) && AllInClass(r.value.1, cls)
  {
    TryComma(s, RunEnd(s, 0, cls), cls)
  }

  /** The display name `"group(2) group(1)"`. */
  function FirstLast(m: (string, string)): string {
    m.1 + " " + m.0
  }

  /** Positions inside the given name hold no comma, so the search passes
      over them. */
  lemma {:induction false} TryCommaSkips(s: string, p: nat, q: nat, cls: NameClass)
    requires q <= p <= |s|
    requires forall k :: 0 <= k < p ==> InClass(s[k], cls)
    requires forall k :: q < k < |s| ==> s[k] != ','
    ensures TryComma(s, p, cls) == TryComma(s, q, cls)
    decreases p
  {
    if p > q {
      assert p == |s| || s[p] != ',';
      TryCommaSkips(s, p - 1, q, cls);
    }
  }

  lemma {:induction false} TryCommaNone(s: string, p: nat, cls: NameClass)
    requires p <= |s|
    requires forall k :: 0 <= k < p ==> InClass(s[k], cls)
    requires ',' !in s
    ensures TryComma(s, p, cls) == None
    decreases p
  {
    if p > 0 {
      assert p == |s| || s[p] != ',';
      TryCommaNone(s, p - 1, cls);
    }
  }

  /** Text without a comma does not match: the source's `assert` on the
      match fails. */
  lemma NoCommaNoMatch(s: string, cls: NameClass)
    requires ',' !in s
    ensures MatchLastFirst(s, cls) == None
  {
    TryCommaNone(s, RunEnd(s, 0, cls), cls);
  }

  /** A run of class characters reaches at least as far as any stretch of
      class characters from its start. */
  lemma RunCovers(s: string, i: nat, j: nat, cls: NameClass)
    requires i <= j <= |s|
    requires forall k :: i <= k < j ==> InClass(s[k], cls)
    ensures RunEnd(s, i, cls) >= j
  {
  }

  /** The search succeeds at a comma followed by one space and a class
      character that is not whitespace; the second group then runs to the
      end of the class characters. */
  lemma CommaMatch(s: string, p: nat, cls: NameClass)
    requires 0 < p && p + 2 < |s|
    requires forall k :: 0 <= k < p ==> InClass(s[k], cls)
    requires s[p] == ',' && s[p + 1] == ' ' && !IsSpace(s[p + 2])
    requires forall k :: p + 2 <= k < |s| ==> InClass(s[k], cls)
    ensures TryComma(s, p, cls) == Some((s[..p], s[p + 2..]))
  {
    assert SpaceRunEnd(s, p + 2) == p + 2;
    assert SpaceRunEnd(s, p + 1) == p + 2;
    assert InClass(s[p + 2], cls);
    assert SecondStart(s, p + 1, p + 2, cls) == Some(p + 2);
    RunCovers(s, p + 2, |s|, cls);
    assert RunEnd(s, p + 2, cls) == |s|;
    var w := SecondStart(s, p + 1, SpaceRunEnd(s, p + 1), cls).value;
    assert w == p + 2;
    assert s[w..RunEnd(s, w, cls)] == s[p + 2..];
    assert p < |s| && s[p] == ',' && SecondStart(s, p + 1, SpaceRunEnd(s, p + 1), cls).Some?;
  }

  /** Round trip: a family name and a given name of class characters, the
      given name without a comma and not starting with whitespace, written
      as `"last, first"`, are matched back as the two groups. */
  lemma MatchRoundTrip(last: string, first: string, cls: NameClass)
    requires |last| > 0 && |first| > 0
    requires AllInClass(last, cls) && AllInClass(first, cls)
    requires ',' !in first && !IsSpace(first[0])
    ensures MatchLastFirst(last + ", " + first, cls) == Some((last, first))
  {
    var s := last + ", " + first;
    var p := |last|;
    assert forall k :: p + 2 <= k < |s| ==> s[k] == first[k - p - 2];
    assert forall k :: 0 <= k < p ==> s[k] == last[k];
    RunCovers(s, 0, p, cls);
    TryCommaSkips(s, RunEnd(s, 0, cls), p, cls);
    CommaMatch(s, p, cls);
    assert s[..p] == last;
    assert s[p + 2..] == first;
  }

  /** ASCII letters, space, comma, full stop, apostrophe and hyphen are in
      the directory class. */
  lemma AsciiDirectory(s: string)
    requires forall i :: 0 <= i < |s| ==> IsAsciiUpper(s[i]) || IsAsciiLower(s[i]) || s[i] in " ,.'-"
    ensures AllInClass(s, DirectoryChar)
  {
    forall i | 0 <= i < |s|
      ensures DirectoryChar(s[i])
    {
    }
  }

  /** ASCII letters, digits, underscore, full stop, hyphen, apostrophe and
      space are in the word class. */
  lemma AsciiWord(s: string)
    requires forall i :: 0 <= i < |s| ==> IsAsciiUpper(s[i]) || IsAsciiLower(s[i]) || s[i] in " .-'"
    ensures AllInClass(s, WordChar)
  {
    forall i | 0 <= i < |s|
      ensures WordChar(s[i])
    {
    }
  }

  /** With the directory class the first group may itself hold a comma (a
      suffix such as "Jr."), because the class contains the comma and the
      group is greedy. */
  lemma CommaInFamilyName()
    ensures MatchLastFirst("Doe, Jr., Jane", DirectoryChar) == Some(("Doe, Jr.", "Jane"))
  {
    AsciiDirectory("Doe, Jr.");
    AsciiDirectory("Jane");
    assert "Doe, Jr." + ", " + "Jane" == "Doe, Jr., Jane";
    MatchRoundTrip("Doe, Jr.", "Jane", DirectoryChar);
  }

  /** A given name that contains a comma is cut at the last comma. */
  lemma LastCommaWins()
    ensures MatchLastFirst("Doe, Jane, X", DirectoryChar) == Some(("Doe, Jane", "X"))
  {
    AsciiDirectory("Doe, Jane");
    AsciiDirectory("X");
    assert "Doe, Jane" + ", " + "X" == "Doe, Jane, X";
    MatchRoundTrip("Doe, Jane", "X", DirectoryChar);
  }
}
