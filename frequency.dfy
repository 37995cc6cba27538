/** The course-frequency tables (src/scraper/frequency.py and the copy in
    src/scraper/web.py): every row of the CICS table and of the mathematics
    table gives an `(id, frequency)` pair; frequency.py folds the pairs into a
    dictionary, scraper/web.py keeps them as a list. */
module Frequency {
  import opened Strings

  /** A row of the CICS table: the texts of its first, second and last
      cells, as `get_tag_text` returns them. */
  datatype CicsRow = CicsRow(subjectCell: string, numberCell: string, frequencyCell: string)

  /** A row of the mathematics table: the texts of its first and last cells,
      as `get_tag_text` returns them. */
  datatype MathRow = MathRow(courseCell: string, frequencyCell: string)

  const Special: string := "Fall/Spring/Summer"

  /** The frequency rule of `math_course_frequency`. */
  function NormaliseFrequency(f: string): (r: string)
    ensures f == Special ==> r == "Fall, Spring, and Summer"
    ensures f != Special ==> '/' !in r
  {
    if f == Special then "Fall, Spring, and Summer"
    else
      ReplaceAllRemoves(f, '/', " and ");
      ReplaceAllAvoids(ReplaceAll(f, "/", " and "), "  ", " ", '/');
      ReplaceAll(ReplaceAll(f, "/", " and "), "  ", " ")
  }

  lemma SlashesReplaced()
    ensures ReplaceAll("A / B", "/", " and ") == "A  and  B"
  {
    assert ReplaceAll("B", "/", " and ") == "B";
    assert ReplaceAll(" B", "/", " and ") == " B";
    assert ReplaceAll("/ B", "/", " and ") == " and  B";
    assert ReplaceAll(" / B", "/", " and ") == "  and  B";
  }

  lemma TailSpacesReplaced()
    ensures ReplaceAll("and  B", "  ", " ") == "and B"
  {
    assert ReplaceAll("B", "  ", " ") == "B";
    assert ReplaceAll("  B", "  ", " ") == " B";
    assert ReplaceAll("d  B", "  ", " ") == "d B";
    assert ReplaceAll("nd  B", "  ", " ") == "nd B";
  }

  lemma DoubleSpacesReplaced()
    ensures ReplaceAll("A  and  B", "  ", " ") == "A and B"
  {
    TailSpacesReplaced();
    assert ReplaceAll("  and  B", "  ", " ") == " and B";
  }

  /** `"A / B"` becomes `"A and B"`: the slash turns into `" and "` and the
      doubled spaces around it are collapsed. */
  lemma NormaliseSpacedSlash()
    ensures NormaliseFrequency("A / B") == "A and B"
  {
    SlashesReplaced();
    DoubleSpacesReplaced();
  }

  /** Only one pass of the `"  "` replacement is made, so three spaces leave
      two. */
  lemma NormaliseSinglePass()
    ensures NormaliseFrequency("A   B") == "A  B"
  {
    assert ReplaceAll("B", "/", " and ") == "B";
    assert ReplaceAll(" B", "/", " and ") == " B";
    assert ReplaceAll("  B", "/", " and ") == "  B";
    assert ReplaceAll("   B", "/", " and ") == "   B";
    assert ReplaceAll("A   B", "/", " and ") == "A   B";
    assert ReplaceAll("B", "  ", " ") == "B";
    assert ReplaceAll(" B", "  ", " ") == " B";
    assert ReplaceAll("   B", "  ", " ") == "  B";
    assert ReplaceAll("A   B", "  ", " ") == "A  B";
  }

  /** `cics_course_frequency`: the key is `"subject number"` upper-cased. */
  function CicsPair(row: CicsRow): (p: (string, string))
    ensures p.0 == Upper(row.subjectCell) + " " + Upper(row.numberCell)
    ensures p.1 == row.frequencyCell
  {
    UpperAppend(row.subjectCell, " " + row.numberCell);
    UpperAppend(" ", row.numberCell);
    (Upper(row.subjectCell + " " + row.numberCell), row.frequencyCell)
  }

  /** `math_course_frequency`: the key is the first cell upper-cased. */
  function MathPair(row: MathRow): (p: (string, string))
    ensures p.0 == Upper(row.courseCell)
    ensures row.frequencyCell == Special ==> p.1 == "Fall, Spring, and Summer"
    ensures row.frequencyCell != Special ==> '/' !in p.1
    ensures p.1 == NormaliseFrequency(row.frequencyCell)
  {
    (Upper(row.courseCell), NormaliseFrequency(row.frequencyCell))
  }

  /** All pairs, CICS rows first and then mathematics rows, each table in
      row order. */
  function Pairs(cics: seq<CicsRow>, math: seq<MathRow>): (r: seq<(string, string)>)
    ensures |r| == |cics| + |math|
    ensures forall i :: 0 <= i < |cics| ==> r[i] == CicsPair(cics[i])
    ensures forall i :: 0 <= i < |math| ==> r[|cics| + i] == MathPair(math[i])
  {
    seq(|cics|, i requires 0 <= i < |cics| => CicsPair(cics[i]))
      + seq(|math|, i requires 0 <= i < |math| => MathPair(math[i]))
  }

  /** The dictionary after assigning every pair in order. */
  function ToMap(pairs: seq<(string, string)>): map<string, string>
    decreases |pairs|
  {
    if pairs == [] then map[]
    else
      var last := pairs[|pairs| - 1];
      ToMap(pairs[..|pairs| - 1])[last.0 := last.1]
  }

  /** Exactly the ids of the pairs become keys. */
  lemma {:induction false} ToMapKeys(pairs: seq<(string, string)>)
    ensures forall k :: k in ToMap(pairs) <==> exists i :: 0 <= i < |pairs| && pairs[i].0 == k
    decreases |pairs|
  {
    if pairs != [] {
      var init := pairs[..|pairs| - 1];
      ToMapKeys(init);
      forall k
        ensures k in ToMap(pairs) <==> exists i :: 0 <= i < |pairs| && pairs[i].0 == k
      {
        if k in ToMap(init) {
          var i :| 0 <= i < |init| && init[i].0 == k;
          assert pairs[i].0 == k;
        }
        if exists i :: 0 <= i < |pairs| && pairs[i].0 == k {
          var i :| 0 <= i < |pairs| && pairs[i].0 == k;
          if i < |init| {
            assert init[i].0 == k;
          }
        }
      }
    }
  }

  /** The value of a key is the frequency of the last pair with that id. */
  lemma {:induction false} ToMapLastWins(pairs: seq<(string, string)>, i: nat)
    requires i < |pairs|
    requires forall j :: i < j < |pairs| ==> pairs[j].0 != pairs[i].0
    ensures pairs[i].0 in ToMap(pairs) && ToMap(pairs)[pairs[i].0] == pairs[i].1
    decreases |pairs|
  {
    if i < |pairs| - 1 {
      var init := pairs[..|pairs| - 1];
      assert forall j :: i < j < |init| ==> init[j].0 != init[i].0 by {
        forall j | i < j < |init| ensures init[j].0 != init[i].0 {
          assert init[j] == pairs[j];
        }
      }
      ToMapLastWins(init, i);
    }
  }

  /** The pairs after a prefix override it: a later table beats an earlier
      one, and keys of only one table keep that table's value. */
  lemma {:induction false} ToMapAppend(a: seq<(string, string)>, b: seq<(string, string)>)
    ensures ToMap(a + b) == ToMap(a) + ToMap(b)
    decreases |b|
  {
    if b == [] {
      assert a + b == a;
    } else {
      var bi := b[..|b| - 1];
      assert (a + b)[..|a + b| - 1] == a + bi;
      ToMapAppend(a, bi);
    }
  }

  lemma PairsSnocCics(cics: seq<CicsRow>, i: nat)
    requires i < |cics|
    ensures Pairs(cics[..i + 1], []) == Pairs(cics[..i], []) + [CicsPair(cics[i])]
  {
  }

  lemma PairsSnocMath(cics: seq<CicsRow>, math: seq<MathRow>, i: nat)
    requires i < |math|
    ensures Pairs(cics, math[..i + 1]) == Pairs(cics, math[..i]) + [MathPair(math[i])]
  {
  }

  /** `_scrape_course_frequency` of src/scraper/web.py: the list of pairs. */
  method CourseFrequencyList(cics: seq<CicsRow>, math: seq<MathRow>) returns (l: seq<(string, string)>)
    ensures l == Pairs(cics, math)
  {
    l := [];
    for i := 0 to |cics|
      invariant l == Pairs(cics[..i], [])
    {
      PairsSnocCics(cics, i);
      l := l + [CicsPair(cics[i])];
    }
    assert cics[..|cics|] == cics;
    for i := 0 to |math|
      invariant l == Pairs(cics, math[..i])
    {
      PairsSnocMath(cics, math, i);
      l := l + [MathPair(math[i])];
    }
    assert math[..|math|] == math;
  }

  lemma ToMapSnoc(pairs: seq<(string, string)>, p: (string, string))
    ensures ToMap(pairs + [p]) == ToMap(pairs)[p.0 := p.1]
  {
    assert (pairs + [p])[..|pairs|] == pairs;
  }

  /** `scrape_course_frequency` of src/scraper/frequency.py: every row
      assigns its id, in row order, CICS table first. */
  method ScrapeCourseFrequency(cics: seq<CicsRow>, math: seq<MathRow>) returns (m: map<string, string>)
    ensures m == ToMap(Pairs(cics, math))
  {
    m := map[];
    ghost var done: seq<(string, string)> := [];
    for i := 0 to |cics|
      invariant done == Pairs(cics[..i], [])
      invariant m == ToMap(done)
    {
      var p := CicsPair(cics[i]);
      PairsSnocCics(cics, i);
      ToMapSnoc(done, p);
      done := done + [p];
      m := m[p.0 := p.1];
    }
    assert cics[..|cics|] == cics;
    for i := 0 to |math|
      invariant done == Pairs(cics, math[..i])
      invariant m == ToMap(done)
    {
      var p := MathPair(math[i]);
      PairsSnocMath(cics, math, i);
      ToMapSnoc(done, p);
      done := done + [p];
      m := m[p.0 := p.1];
    }
    assert math[..|math|] == math;
  }

  /** The dictionary is the CICS table's overridden by the mathematics
      table's: a course in both gets its mathematics frequency. */
  lemma MathBeatsCics(cics: seq<CicsRow>, math: seq<MathRow>)
    ensures ToMap(Pairs(cics, math)) == ToMap(Pairs(cics, [])) + ToMap(Pairs([], math))
    ensures forall k :: k in ToMap(Pairs([], math)) ==>
      (k in ToMap(Pairs(cics, math)) && ToMap(Pairs(cics, math))[k] == ToMap(Pairs([], math))[k])
  {
    assert Pairs(cics, math) == Pairs(cics, []) + Pairs([], math);
    ToMapAppend(Pairs(cics, []), Pairs([], math));
  }
}
