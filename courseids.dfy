/** src/shared/courses.py: the course-id pattern and the `CourseID` value
    (an id string `"SUBJECT NUMBER"` in upper case beside the subject and number
    exactly as given). */
module CourseIds {
  import opened Wrappers
  import opened Strings
  import UtilText

  predicate AllUpper(s: string) {
    forall i :: 0 <= i < |s| ==> IsAsciiUpper(s[i])
  }

  predicate AllDigits(s: string) {
    forall i :: 0 <= i < |s| ==> IsAsciiDigit(s[i])
  }

  /** `COURSE_ID_PATTERN.match(s)` for `^[A-Z]{2,10} \d{3}([A-Z]+)?`: there is
      no end anchor, so the optional suffix never decides a match. */
  predicate IsCourseId(s: string) {
    exists n :: 2 <= n <= 10 && n + 4 <= |s| && AllUpper(s[..n]) && s[n] == ' ' && AllDigits(s[n + 1..n + 4])
  }

  datatype CourseID = CourseID(id: string, subject: string, number: string)

  datatype CourseIdError =
    | NotACourseId   // `assert is_course_id(course_id)` failed
    | NotTwoParts    // `[subject, number] = ...split(" ")` raised ValueError

  /** `CourseID(subject, number)`: the id is upper-cased, the accessors
      return the arguments as given. */
  function NewCourseId(subject: string, number: string): (c: CourseID)
    ensures c.id == Upper(subject) + " " + Upper(number)
    ensures c.subject == subject && c.number == number
  {
    CourseID(Upper(subject) + " " + Upper(number), subject, number)
  }

  /** `str(course_id)` */
  function Str(c: CourseID): string {
    c.id
  }

  lemma UpperIdempotent(s: string)
    ensures Upper(Upper(s)) == Upper(s)
  {
  }

  lemma UpperOfUpper(s: string)
    requires forall i :: 0 <= i < |s| ==> !IsAsciiLower(s[i])
    ensures Upper(s) == s
  {
  }

  /** `CourseID.from_text`: clean (the src/shared/util.py version), upper-case,
      check the pattern, then split on single spaces into exactly two parts. */
  function FromText(text: string): (r: Result<CourseID, CourseIdError>)
    ensures !IsCourseId(Upper(UtilText.UtilCleaned(text))) ==> r == Err(NotACourseId)
    ensures r.Ok? ==> (IsCourseId(Upper(UtilText.UtilCleaned(text)))
      && Str(r.value) == Upper(UtilText.UtilCleaned(text))
      && |Split(Upper(UtilText.UtilCleaned(text)), " ")| == 2)
    ensures r.Err? && IsCourseId(Upper(UtilText.UtilCleaned(text))) ==>
      r == Err(NotTwoParts) && |Split(Upper(UtilText.UtilCleaned(text)), " ")| != 2
    ensures r.Ok? ==> var parts := Split(Upper(UtilText.UtilCleaned(text)), " ");
      r.value == NewCourseId(parts[0], parts[1])
  {
    var id := Upper(UtilText.UtilCleaned(text));
    if !IsCourseId(id) then Err(NotACourseId)
    else
      var parts := Split(id, " ");
      if |parts| != 2 then Err(NotTwoParts)
      else
        UpperIdempotent(UtilText.UtilCleaned(text));
        TwoPartsId(id);
        Ok(NewCourseId(parts[0], parts[1]))
  }

  /** Upper-case text that splits into two parts is the id of those parts. */
  lemma TwoPartsId(id: string)
    requires |Split(id, " ")| == 2 && Upper(id) == id
    ensures Upper(Split(id, " ")[0]) + " " + Upper(Split(id, " ")[1]) == id
  {
    var parts := Split(id, " ");
    SplitJoin(id, " ");
    JoinTwo(parts, " ");
    UpperSpaced(parts[0], parts[1]);
  }

  lemma JoinTwo(parts: seq<string>, sep: string)
    requires |parts| == 2
    ensures Join(parts, sep) == parts[0] + sep + parts[1]
  {
    assert parts[1..] == [parts[1]];
  }

  lemma UpperSpaced(a: string, b: string)
    ensures Upper(a + " " + b) == Upper(a) + " " + Upper(b)
  {
    UpperAppend(a + " ", b);
    UpperAppend(a, " ");
    assert Upper(" ") == " ";
  }

  /** Two words without whitespace joined by one space are left alone by
      `clean_text` (the src/shared/util.py version). */
  lemma TwoWordsClean(a: string, b: string)
    requires |a| > 0 && |b| > 0
    requires forall i :: 0 <= i < |a| ==> !IsSpace(a[i])
    requires forall i :: 0 <= i < |b| ==> !IsSpace(b[i])
    ensures UtilText.UtilCleaned(a + " " + b) == a + " " + b
  {
    var s := a + " " + b;
    assert !UtilText.HasSpaceRun(s) by {
      forall i | 0 <= i < |s| - 1
        ensures !(IsSpace(s[i]) && IsSpace(s[i + 1]))
      {
        if i < |a| {
          assert s[i] == a[i];
        } else {
          assert s[i + 1] == b[i + 1 - |a| - 1];
        }
      }
    }
    assert s[0] == a[0];
    assert s[|s| - 1] == b[|b| - 1];
    UtilText.UtilCleanedUnchanged(s);
  }

  lemma TwoWordsSplit(a: string, b: string)
    requires ' ' !in a && ' ' !in b
    ensures Split(a + " " + b, " ") == [a, b]
  {
    assert a + " " + b == a + [' '] + b;
    SplitAtFirst(a, ' ', b);
    SplitWithoutSep(b, ' ');
  }

  lemma CourseNumberChars(number: string)
    requires |number| >= 3 && AllDigits(number[..3]) && AllUpper(number[3..])
    ensures forall i :: 0 <= i < |number| ==> IsAsciiDigit(number[i]) || IsAsciiUpper(number[i])
  {
    forall i | 0 <= i < |number|
      ensures IsAsciiDigit(number[i]) || IsAsciiUpper(number[i])
    {
      if i < 3 { assert number[i] == number[..3][i]; } else { assert number[i] == number[3..][i - 3]; }
    }
  }

  /** Round trip: an upper-case subject of 2 to 10 letters and a number of
      three digits followed by upper-case letters survive `str` and
      `from_text`. */
  lemma RoundTrip(subject: string, number: string)
    requires 2 <= |subject| <= 10 && AllUpper(subject)
    requires |number| >= 3 && AllDigits(number[..3]) && AllUpper(number[3..])
    ensures FromText(Str(NewCourseId(subject, number))) == Ok(NewCourseId(subject, number))
  {
    var s := subject + " " + number;
    CourseNumberChars(number);
    UpperOfUpper(subject);
    UpperOfUpper(number);
    assert Str(NewCourseId(subject, number)) == s;
    TwoWordsClean(subject, number);
    UpperOfUpper(s);
    assert s[..|subject|] == subject;
    assert s[|subject| + 1..|subject| + 4] == number[..3];
    assert IsCourseId(s);
    TwoWordsSplit(subject, number);
  }

  lemma ThreeWordsClean(a: string, b: string, c: string)
    requires |a| > 0 && |b| > 0 && |c| > 0
    requires forall i :: 0 <= i < |a| ==> !IsSpace(a[i])
    requires forall i :: 0 <= i < |b| ==> !IsSpace(b[i])
    requires forall i :: 0 <= i < |c| ==> !IsSpace(c[i])
    ensures UtilText.UtilCleaned(a + " " + b + " " + c) == a + " " + b + " " + c
  {
    var s := a + " " + b + " " + c;
    assert !UtilText.HasSpaceRun(s) by {
      forall i | 0 <= i < |s| - 1
        ensures !(IsSpace(s[i]) && IsSpace(s[i + 1]))
      {
        if i < |a| {
          assert s[i] == a[i];
        } else if i < |a| + |b| {
          assert s[i + 1] == b[i - |a|];
        } else if i == |a| + |b| {
          assert s[i] == b[|b| - 1];
        } else {
          assert s[i + 1] == c[i - |a| - |b| - 1];
        }
      }
    }
    assert s[0] == a[0];
    assert s[|s| - 1] == c[|c| - 1];
    UtilText.UtilCleanedUnchanged(s);
  }

  /** The pattern has no end anchor, so a valid id followed by a further word
      passes it, and then the split into two parts fails. */
  lemma ExtraWordFails(subject: string, number: string, extra: string)
    requires 2 <= |subject| <= 10 && AllUpper(subject)
    requires |number| >= 3 && AllDigits(number[..3]) && AllUpper(number[3..])
    requires |extra| > 0 && AllUpper(extra)
    ensures IsCourseId(subject + " " + number + " " + extra)
    ensures FromText(subject + " " + number + " " + extra) == Err(NotTwoParts)
  {
    var s := subject + " " + number + " " + extra;
    CourseNumberChars(number);
    ThreeWordsClean(subject, number, extra);
    UpperOfUpper(s);
    assert s[..|subject|] == subject;
    assert s[|subject| + 1..|subject| + 4] == number[..3];
    assert IsCourseId(s);
    assert s == subject + [' '] + (number + " " + extra);
    SplitAtFirst(subject, ' ', number + " " + extra);
    TwoWordsSplit(number, extra);
  }
}
