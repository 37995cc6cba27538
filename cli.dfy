/** `parse_args` of src/main.py: every argument after the program name is
    lower-cased; "--headless" sets the flag and other "--" options are
    ignored; the first other word must be a mode, and a second one is an
    error. An exit is an `Err` carrying the message. */
module Cli {
  import opened Wrappers
  import opened Strings

  datatype Mode = Rebase | Update

  type Parsed = (Option<Mode>, bool)

  const AlreadyDefined: string := "Mode is already defined."

  /** The arguments after the program name, lower-cased. */
  function Words(args: seq<string>): (ws: seq<string>)
    ensures |ws| == if |args| == 0 then 0 else |args| - 1
    ensures forall i :: 0 <= i < |ws| ==> ws[i] == Lower(args[i + 1])
  {
    if |args| == 0 then [] else seq(|args| - 1, i requires 0 <= i < |args| - 1 => Lower(args[i + 1]))
  }

  predicate IsOption(w: string) {
    StartsWith(w, "--")
  }

  /** The words that are not options, in order. */
  function Positionals(ws: seq<string>): seq<string>
    decreases |ws|
  {
    if ws == [] then []
    else Positionals(ws[..|ws| - 1]) + (if IsOption(ws[|ws| - 1]) then [] else [ws[|ws| - 1]])
  }

  /** `arg[2:] == "headless"` for an option is `arg == "--headless"`. */
  predicate Headless(ws: seq<string>) {
    exists i :: 0 <= i < |ws| && ws[i] == "--headless"
  }

  function ModeNamed(w: string): Option<Mode> {
    if w == "rebase" then Some(Rebase) else if w == "update" then Some(Update) else None
  }

  /** What `parse_args` returns or the message it exits with, stated on the
      whole list: no mode word gives no mode; otherwise the first mode word
      must name a mode, and there may be no second one. */
  function ParseWords(ws: seq<string>): Result<Parsed, string> {
    var p := Positionals(ws);
    if p == [] then Ok((None, Headless(ws)))
    else if ModeNamed(p[0]).None? then Err("Unrecognized mode: " + p[0])
    else if |p| >= 2 then Err(AlreadyDefined)
    else Ok((ModeNamed(p[0]), Headless(ws)))
  }

  function ParseArgsSpec(args: seq<string>): Result<Parsed, string> {
    ParseWords(Words(args))
  }

  /** What reading one more word does to the outcome so far: an earlier exit
      stands; an option can only set the flag; a mode word after a mode exits,
      and otherwise it must name a mode. */
  function ReadWord(p: Result<Parsed, string>, w: string): Result<Parsed, string> {
    match p
    case Err(e) => Err(e)
    case Ok((m, h)) =>
      if IsOption(w) then Ok((m, h || w == "--headless"))
      else if m.Some? then Err(AlreadyDefined)
      else if ModeNamed(w).Some? then Ok((ModeNamed(w), h))
      else Err("Unrecognized mode: " + w)
  }

  /** The whole-list outcome agrees with reading the words one at a time. */
  lemma ParseWordsSnoc(ws: seq<string>, w: string)
    ensures ParseWords(ws + [w]) == ReadWord(ParseWords(ws), w)
  {
    var ws' := ws + [w];
    assert ws'[..|ws'| - 1] == ws;
    assert Headless(ws') <==> Headless(ws) || w == "--headless" by {
      if Headless(ws') {
        var i :| 0 <= i < |ws'| && ws'[i] == "--headless";
        if i < |ws| {
          assert ws[i] == ws'[i];
        }
      }
      if Headless(ws) {
        var i :| 0 <= i < |ws| && ws[i] == "--headless";
        assert ws'[i] == ws[i];
      }
      if w == "--headless" {
        assert ws'[|ws|] == w;
      }
    }
  }

  /** For an option, `arg[2:] == "headless"` is `arg == "--headless"`. */
  lemma HeadlessOption(arg: string)
    requires StartsWith(arg, "--")
    ensures arg[2..] == "headless" <==> arg == "--headless"
  {
    assert arg == arg[..2] + arg[2..];
  }

  /** `parse_args` */
  method ParseArgs(args: seq<string>) returns (r: Result<Parsed, string>)
    ensures r == ParseArgsSpec(args)
  {
    var isHeadless := false;
    var mode: Option<Mode> := None;
    var ws := Words(args);
    for i := 0 to |ws|
      invariant ParseWords(ws[..i]) == Ok((mode, isHeadless))
    {
      var arg := Lower(args[i + 1]);
      assert ws[..i + 1] == ws[..i] + [arg];
      ParseWordsSnoc(ws[..i], arg);
      ghost var next := ReadWord(Ok((mode, isHeadless)), arg);
      if StartsWith(arg, "--") {
        HeadlessOption(arg);
        if arg[2..] == "headless" {
          isHeadless := true;
        }
      } else {
        if mode.Some? {
          r := Err(AlreadyDefined);
          ErrorStands(ws[..i + 1], ws[i + 1..]);
          assert ws[..i + 1] + ws[i + 1..] == ws;
          return;
        }
        if arg == "rebase" {
          mode := Some(Rebase);
        } else if arg == "update" {
          mode := Some(Update);
        } else {
          r := Err("Unrecognized mode: " + arg);
          ErrorStands(ws[..i + 1], ws[i + 1..]);
          assert ws[..i + 1] + ws[i + 1..] == ws;
          return;
        }
      }
      assert next == Ok((mode, isHeadless));
    }
    assert ws[..|ws|] == ws;
    r := Ok((mode, isHeadless));
  }

  /** An exit is final: later arguments are never read. */
  lemma {:induction false} ErrorStands(ws: seq<string>, more: seq<string>)
    requires ParseWords(ws).Err?
    ensures ParseWords(ws + more) == ParseWords(ws)
    decreases |more|
  {
    if more != [] {
      var init := more[..|more| - 1];
      var x := more[|more| - 1];
      ErrorStands(ws, init);
      assert ws + more == (ws + init) + [x];
      ParseWordsSnoc(ws + init, x);
      assert ParseWords(ws + init) == ParseWords(ws);
      assert ParseWords((ws + init) + [x]) == ParseWords(ws);
    } else {
      assert ws + more == ws;
    }
  }

  lemma {:induction false} PositionalsAppend(a: seq<string>, b: seq<string>)
    ensures Positionals(a + b) == Positionals(a) + Positionals(b)
    decreases |b|
  {
    if b == [] {
      assert a + b == a;
    } else {
      var bi := b[..|b| - 1];
      assert (a + b)[..|a + b| - 1] == a + bi;
      PositionalsAppend(a, bi);
    }
  }

  /** The outcome depends only on the mode words and the flag. */
  lemma SameOutcome(ws1: seq<string>, ws2: seq<string>)
    requires Positionals(ws1) == Positionals(ws2) && (Headless(ws1) <==> Headless(ws2))
    ensures ParseWords(ws1) == ParseWords(ws2)
  {
  }

  /** Where "--headless" stands does not matter: moving it to the front
      changes nothing. */
  lemma HeadlessAnywhere(a: seq<string>, b: seq<string>)
    ensures ParseWords(a + ["--headless"] + b) == ParseWords(["--headless"] + a + b)
  {
    var f := ["--headless"];
    assert IsOption("--headless") by {
      assert "--headless"[..2] == "--";
    }
    assert Positionals(f) == [] by {
      assert f[..0] == [];
    }
    PositionalsAppend(a, f);
    PositionalsAppend(a + f, b);
    PositionalsAppend(f, a);
    PositionalsAppend(f + a, b);
    assert Headless(a + f + b) by {
      assert (a + f + b)[|a|] == "--headless";
    }
    assert Headless(f + a + b) by {
      assert (f + a + b)[0] == "--headless";
    }
    SameOutcome(a + f + b, f + a + b);
  }

  lemma SinglePositional(w: string)
    requires !IsOption(w)
    ensures Positionals([w]) == [w]
  {
    assert [w][..0] == [];
  }

  lemma SingleOption(w: string)
    requires IsOption(w)
    ensures Positionals([w]) == []
  {
    assert [w][..0] == [];
  }

  /** A mode given twice is an error even when it is the same mode. */
  lemma SameModeTwice(program: string)
    ensures ParseArgsSpec([program, "update", "update"]) == Err(AlreadyDefined)
  {
    var ws := Words([program, "update", "update"]);
    assert Lower("update") == "update";
    assert ws == ["update", "update"];
    assert "update"[..2] == "up";
    assert !IsOption("update");
    SinglePositional("update");
    assert ws == ["update"] + ["update"];
    PositionalsAppend(["update"], ["update"]);
  }

  /** Upper-case arguments are matched after lower-casing, and the program
      name is never read. */
  lemma UpperCaseMode(program: string)
    ensures ParseArgsSpec([program, "REBASE", "--Headless"]) == Ok((Some(Rebase), true))
  {
    var ws := Words([program, "REBASE", "--Headless"]);
    assert Lower("REBASE") == "rebase";
    assert Lower("--Headless") == "--headless";
    assert ws == ["rebase"] + ["--headless"];
    assert !IsOption("rebase") by {
      assert "rebase"[..2] == "re";
    }
    assert IsOption("--headless") by {
      assert "--headless"[..2] == "--";
    }
    assert ParseWords([]) == Ok((None, false));
    ParseWordsSnoc([], "rebase");
    assert [] + ["rebase"] == ["rebase"];
    ParseWordsSnoc(["rebase"], "--headless");
  }
}
