/** `clean_text` of the scrapers (src/scraper/shared.py, and the identical copy
    in src/web.py): NBSP, newline and tab become spaces, double spaces are
    replaced until none is left, and the result is stripped. Every scraped
    cell passes through it (`get_tag_text`, `text_of`). */
module ScraperText {
  import opened Strings

  /** The characters replaced by a space before collapsing. */
  const Breaks: seq<char> := ['\U{A0}', '\n', '\t']

  /** `"  " in s` */
  predicate HasDoubleSpace(s: string) {
    exists i :: 0 <= i < |s| - 1 && s[i] == ' ' && s[i + 1] == ' '
  }

  /** One space-collapsing pass: `s.replace("  ", " ")`. */
  function Halve(s: string): string {
    ReplaceAll(s, "  ", " ")
  }

  /** Every NBSP, newline and tab turned into a space. */
  function Blank(s: string): (r: string)
    ensures |r| == |s|
    ensures forall i :: 0 <= i < |s| ==> r[i] == if s[i] in Breaks then ' ' else s[i]
  {
    seq(|s|, i requires 0 <= i < |s| => if s[i] in Breaks then ' ' else s[i])
  }

  /** Reference definition of the collapsing loop: every maximal run of spaces
      becomes a single space. */
  function Squeeze(s: string): string
    decreases |s|
  {
    if |s| == 0 then []
    else if |s| >= 2 && s[0] == ' ' && s[1] == ' ' then Squeeze(s[1..])
    else [s[0]] + Squeeze(s[1..])
  }

  /** What `clean_text(s)` returns. */
  function Cleaned(s: string): string {
    Strip(Squeeze(Blank(s)))
  }

  lemma {:induction false} SqueezeHead(s: string)
    requires |s| > 0
    ensures |Squeeze(s)| > 0 && Squeeze(s)[0] == s[0]
    decreases |s|
  {
    if |s| >= 2 && s[0] == ' ' && s[1] == ' ' {
      SqueezeHead(s[1..]);
    }
  }

  lemma NoDoubleCons(c: char, x: string)
    requires !HasDoubleSpace(x)
    requires !(c == ' ' && |x| > 0 && x[0] == ' ')
    ensures !HasDoubleSpace([c] + x)
  {
    var y := [c] + x;
    forall i | 0 <= i < |y| - 1
      ensures !(y[i] == ' ' && y[i + 1] == ' ')
    {
      if i > 0 {
        assert y[i] == x[i - 1] && y[i + 1] == x[i];
      }
    }
  }

  /** The reference leaves no two consecutive spaces. */
  lemma {:induction false} SqueezeNoDouble(s: string)
    ensures !HasDoubleSpace(Squeeze(s))
    decreases |s|
  {
    if |s| == 0 {
    } else if |s| >= 2 && s[0] == ' ' && s[1] == ' ' {
      SqueezeNoDouble(s[1..]);
    } else {
      SqueezeNoDouble(s[1..]);
      if |s| > 1 {
        SqueezeHead(s[1..]);
      }
      NoDoubleCons(s[0], Squeeze(s[1..]));
    }
  }

  /** A string without double spaces is left alone by the reference. */
  lemma {:induction false} SqueezeFixed(s: string)
    requires !HasDoubleSpace(s)
    ensures Squeeze(s) == s
    decreases |s|
  {
    if |s| > 0 {
      assert !HasDoubleSpace(s[1..]) by {
        forall i | 0 <= i < |s[1..]| - 1
          ensures !(s[1..][i] == ' ' && s[1..][i + 1] == ' ')
        {
          assert s[1..][i] == s[i + 1] && s[1..][i + 1] == s[i + 2];
        }
      }
      SqueezeFixed(s[1..]);
      assert s == [s[0]] + s[1..];
    }
  }

  /** A pass keeps the first character. */
  lemma HalveHead(s: string)
    requires |s| > 0
    ensures |Halve(s)| > 0 && Halve(s)[0] == s[0]
  {
  }

  /** One pass of `replace("  ", " ")` does not change what the reference
      produces, so the loop computes the reference. */
  lemma {:induction false} SqueezeHalve(s: string)
    ensures Squeeze(Halve(s)) == Squeeze(s)
    decreases |s|
  {
    if |s| == 0 {
    } else if StartsWith(s, "  ") {
      var t := s[2..];
      assert Halve(s) == " " + Halve(t);
      assert s[1..] == " " + t;
      SqueezeHalve(t);
      if |t| > 0 {
        HalveHead(t);
      }
      assert (" " + Halve(t))[1..] == Halve(t);
      assert (" " + t)[1..] == t;
    } else {
      var h := Halve(s[1..]);
      assert Halve(s) == [s[0]] + h;
      SqueezeHalve(s[1..]);
      if |s| > 1 {
        HalveHead(s[1..]);
      }
      assert ([s[0]] + h)[1..] == h;
    }
  }

  /** A pass never lengthens, and shortens whenever a double space is present:
      the loop terminates. */
  lemma {:induction false} HalveShrinks(s: string)
    ensures |Halve(s)| <= |s|
    ensures HasDoubleSpace(s) ==> |Halve(s)| < |s|
    decreases |s|
  {
    if |s| == 0 {
    } else if StartsWith(s, "  ") {
      HalveShrinks(s[2..]);
    } else {
      HalveShrinks(s[1..]);
      if HasDoubleSpace(s) {
        var i :| 0 <= i < |s| - 1 && s[i] == ' ' && s[i + 1] == ' ';
        assert s[1..][i - 1] == ' ' && s[1..][i] == ' ';
      }
    }
  }

  /** The reference keeps every non-whitespace character, in order. */
  lemma {:induction false} SqueezeNonSpace(s: string)
    ensures NonSpace(Squeeze(s)) == NonSpace(s)
    decreases |s|
  {
    if |s| == 0 {
    } else if |s| >= 2 && s[0] == ' ' && s[1] == ' ' {
      SqueezeNonSpace(s[1..]);
    } else {
      SqueezeNonSpace(s[1..]);
      var x := Squeeze(s[1..]);
      assert ([s[0]] + x)[1..] == x;
    }
  }

  /** The reference introduces no character. */
  lemma {:induction false} SqueezeAvoids(s: string, c: char)
    requires c !in s
    ensures c !in Squeeze(s)
    decreases |s|
  {
    if |s| > 0 {
      SqueezeAvoids(s[1..], c);
    }
  }

  /** Blanking only turns whitespace into whitespace. */
  lemma {:induction false} BlankNonSpace(s: string)
    ensures NonSpace(Blank(s)) == NonSpace(s)
    decreases |s|
  {
    if |s| > 0 {
      BlankNonSpace(s[1..]);
      assert Blank(s)[1..] == Blank(s[1..]);
    }
  }

  /** A slice keeps "no double space" and the absence of a character. */
  lemma SliceKeeps(x: string, r: string, a: int)
    requires OccursAt(x, r, a)
    ensures !HasDoubleSpace(x) ==> !HasDoubleSpace(r)
    ensures forall c :: c !in x ==> c !in r
  {
    if !HasDoubleSpace(x) {
      forall i | 0 <= i < |r| - 1
        ensures !(r[i] == ' ' && r[i + 1] == ' ')
      {
        assert r[i] == x[a + i] && r[i + 1] == x[a + i + 1];
      }
    }
    forall c | c !in x
      ensures c !in r
    {
      forall i | 0 <= i < |r|
        ensures r[i] != c
      {
        assert r[i] == x[a + i];
      }
    }
  }

  /** What `clean_text` promises: no NBSP, newline or tab, no two consecutive
      spaces, nothing to strip at either end, and the non-whitespace
      characters of the input kept in order. */
  lemma CleanedProperties(s: string)
    ensures forall c :: c in Breaks ==> c !in Cleaned(s)
    ensures !HasDoubleSpace(Cleaned(s))
    ensures Cleaned(s) != [] ==> !IsSpace(Cleaned(s)[0]) && !IsSpace(Cleaned(s)[|Cleaned(s)| - 1])
    ensures NonSpace(Cleaned(s)) == NonSpace(s)
  {
    var b := Blank(s);
    var q := Squeeze(b);
    var r := Strip(q);
    var a :| OccursAt(q, r, a);
    SqueezeNoDouble(b);
    SliceKeeps(q, r, a);
    forall c | c in Breaks
      ensures c !in r
    {
      assert c != ' ';
      SqueezeAvoids(b, c);
    }
    BlankNonSpace(s);
    SqueezeNonSpace(b);
    NonSpaceStrip(q);
  }

  /** Cleaning twice is cleaning once. */
  lemma CleanedIdempotent(s: string)
    ensures Cleaned(Cleaned(s)) == Cleaned(s)
  {
    var r := Cleaned(s);
    CleanedProperties(s);
    assert Blank(r) == r;
    SqueezeFixed(r);
    StripUnchanged(r);
  }

  /** `clean_text`: the replacement loop over NBSP, newline and tab, then the
      `while "  " in s` loop, then `strip`. */
  method CleanText(s: string) returns (r: string)
    ensures r == Cleaned(s)
    ensures forall c :: c in Breaks ==> c !in r
    ensures !HasDoubleSpace(r)
    ensures r != [] ==> !IsSpace(r[0]) && !IsSpace(r[|r| - 1])
    ensures NonSpace(r) == NonSpace(s)
  {
    var t := s;
    for k := 0 to |Breaks|
      invariant |t| == |s|
      invariant forall i :: 0 <= i < |s| ==> t[i] == if s[i] in Breaks[..k] then ' ' else s[i]
    {
      ReplaceCharIsMap(t, Breaks[k], ' ');
      t := ReplaceAll(t, [Breaks[k]], " ");
    }
    assert Breaks[..|Breaks|] == Breaks;
    assert t == Blank(s);
    while HasDoubleSpace(t)
      invariant Squeeze(t) == Squeeze(Blank(s))
      decreases |t|
    {
      SqueezeHalve(t);
      HalveShrinks(t);
      t := ReplaceAll(t, "  ", " ");
    }
    SqueezeFixed(t);
    r := Strip(t);
    CleanedProperties(s);
  }
}
