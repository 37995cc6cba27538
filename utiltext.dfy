/** `clean_text` of src/shared/util.py: strip, then, while `\s{2,}` matches,
    replace the leftmost run `[a, b)` by one space. The slice it keeps after the
    run starts at `b + 1`, so the character right after each run is dropped as
    well. */
module UtilText {
  import opened Wrappers
  import opened Strings

  /** `re.search(r"\s{2,}", s) is not None` */
  predicate HasSpaceRun(s: string) {
    exists i :: 0 <= i < |s| - 1 && IsSpace(s[i]) && IsSpace(s[i + 1])
  }

  function SearchRunFrom(s: string, i: nat): (m: Option<(nat, nat)>)
    requires i <= |s|
    ensures m.None? <==> forall j :: i <= j < |s| - 1 ==> !(IsSpace(s[j]) && IsSpace(s[j + 1]))
    ensures m.Some? ==> i <= m.value.0 && m.value.0 + 2 <= m.value.1 <= |s|
    ensures m.Some? ==> forall k :: m.value.0 <= k < m.value.1 ==> IsSpace(s[k])
    ensures m.Some? ==> m.value.1 == |s| || !IsSpace(s[m.value.1])
    ensures m.Some? ==> forall j :: i <= j < m.value.0 ==> !(IsSpace(s[j]) && IsSpace(s[j + 1]))
    decreases |s| - i
  {
    if i + 1 < |s| then
      if IsSpace(s[i]) && IsSpace(s[i + 1]) then Some((i, SpaceRunEnd(s, i)))
      else SearchRunFrom(s, i + 1)
    else None
  }

  /** `re.search(r"\s{2,}", s).span(0)`: the leftmost place where two
      whitespace characters meet, extended over the whole run. */
  function SearchRun(s: string): (m: Option<(nat, nat)>)
    ensures m.None? <==> !HasSpaceRun(s)
    ensures m.Some? ==> m.value.0 + 2 <= m.value.1 <= |s|
    ensures m.Some? ==> forall k :: m.value.0 <= k < m.value.1 ==> IsSpace(s[k])
    ensures m.Some? ==> m.value.1 == |s| || !IsSpace(s[m.value.1])
    ensures m.Some? ==> forall j :: 0 <= j < m.value.0 ==> !(IsSpace(s[j]) && IsSpace(s[j + 1]))
  {
    SearchRunFrom(s, 0)
  }

  /** One iteration: `s[:a] + " " + s[b + 1:]`. */
  function Splice(s: string, a: nat, b: nat): string
    requires a <= b <= |s|
  {
    s[..a] + " " + Drop(s, b + 1)
  }

  /** The loop, as a function of the stripped text. */
  function Collapse(s: string): string
    decreases |s|
  {
    match SearchRun(s)
    case None => s
    case Some((a, b)) => Collapse(Splice(s, a, b))
  }

  /** What `clean_text(s)` returns. */
  function UtilCleaned(s: string): string {
    Collapse(Strip(s))
  }

  /** Every iteration shortens the text: the loop terminates. */
  lemma SpliceShorter(s: string, a: nat, b: nat)
    requires a + 2 <= b <= |s|
    ensures |Splice(s, a, b)| < |s|
  {
  }

  /** A run never starts at a non-whitespace first character, so an iteration
      keeps the first character. */
  lemma SpliceKeepsHead(s: string)
    requires |s| > 0 && !IsSpace(s[0]) && SearchRun(s).Some?
    ensures |Splice(s, SearchRun(s).value.0, SearchRun(s).value.1)| > 0
    ensures Splice(s, SearchRun(s).value.0, SearchRun(s).value.1)[0] == s[0]
  {
  }

  /** On return no run of two or more whitespace characters is left. */
  lemma {:induction false} CollapseNoRun(s: string)
    ensures !HasSpaceRun(Collapse(s))
    decreases |s|
  {
    match SearchRun(s)
    case None =>
    case Some((a, b)) =>
      SpliceShorter(s, a, b);
      CollapseNoRun(Splice(s, a, b));
  }

  /** The result is never longer than its input. */
  lemma {:induction false} CollapseShorter(s: string)
    ensures |Collapse(s)| <= |s|
    decreases |s|
  {
    match SearchRun(s)
    case None =>
    case Some((a, b)) =>
      SpliceShorter(s, a, b);
      CollapseShorter(Splice(s, a, b));
  }

  /** A first character that is not whitespace survives. */
  lemma {:induction false} CollapseKeepsHead(s: string)
    requires |s| > 0 && !IsSpace(s[0])
    ensures |Collapse(s)| > 0 && Collapse(s)[0] == s[0]
    decreases |s|
  {
    match SearchRun(s)
    case None =>
    case Some((a, b)) =>
      SpliceShorter(s, a, b);
      SpliceKeepsHead(s);
      CollapseKeepsHead(Splice(s, a, b));
  }

  /** What `clean_text` promises: no whitespace run of length two or more, no
      longer than the stripped input, and the stripped input's first character
      kept. */
  lemma UtilCleanedProperties(s: string)
    ensures !HasSpaceRun(UtilCleaned(s))
    ensures |UtilCleaned(s)| <= |Strip(s)|
    ensures |Strip(s)| > 0 ==> |UtilCleaned(s)| > 0 && UtilCleaned(s)[0] == Strip(s)[0]
  {
    CollapseNoRun(Strip(s));
    CollapseShorter(Strip(s));
    if |Strip(s)| > 0 {
      CollapseKeepsHead(Strip(s));
    }
  }

  /** Text that is already stripped and has no whitespace run comes back
      unchanged. */
  lemma UtilCleanedUnchanged(s: string)
    requires s != [] ==> !IsSpace(s[0]) && !IsSpace(s[|s| - 1])
    requires !HasSpaceRun(s)
    ensures UtilCleaned(s) == s
  {
    StripUnchanged(s);
  }

  /** The character after a run is lost: "x  y" becomes "x ", which also
      ends in whitespace. */
  lemma DropsCharacterAfterRun()
    ensures UtilCleaned("x  y") == "x "
  {
    var s := "x  y";
    StripUnchanged(s);
    assert SearchRun(s) == Some((1, 3));
    assert Splice(s, 1, 3) == "x ";
    assert SearchRun("x ") == None;
  }

  /** `clean_text`: `s.strip()`, then the `re.search` loop. */
  method CleanText(s: string) returns (r: string)
    ensures r == UtilCleaned(s)
    ensures !HasSpaceRun(r)
    ensures |r| <= |Strip(s)|
    ensures |Strip(s)| > 0 ==> |r| > 0 && r[0] == Strip(s)[0]
  {
    var t := Strip(s);
    var m := SearchRun(t);
    while m.Some?
      invariant m == SearchRun(t)
      invariant Collapse(t) == UtilCleaned(s)
      invariant |t| <= |Strip(s)|
      invariant |Strip(s)| > 0 ==> |t| > 0 && t[0] == Strip(s)[0]
      decreases |t|
    {
      var (a, b) := m.value;
      SpliceShorter(t, a, b);
      if |t| > 0 {
        SpliceKeepsHead(t);
      }
      t := t[..a] + " " + Drop(t, b + 1);
      m := SearchRun(t);
    }
    r := t;
    CollapseNoRun(t);
  }
}
