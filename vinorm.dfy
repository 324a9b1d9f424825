/**
 The Python wrapper `TTSnorm` of the Vinorm text normaliser: the command line
 it builds for the normalisation engine from its four switches, and the way it
 turns the engine's `#line#`-delimited output into one text of sentences each
 ending in ". ".
 */
module Vinorm {
  import opened PyStr

  // ---------------------------------------------------------------------------
  // Command line
  // ---------------------------------------------------------------------------

  /** The keyword arguments of `TTSnorm` that become switches of the engine. */
  datatype Options = Options(punc: bool, unknown: bool, lower: bool, rule: bool)

  /** `TTSnorm(text, punc=False, unknown=True, lower=True, rule=False)`. */
  const Defaults := Options(false, true, true, false)

  /** The engine's switches, in the order the wrapper appends them. */
  const FlagNames: seq<string> := ["-punc", "-unknown", "-lower", "-rule"]

  /** The options, aligned with `FlagNames`. */
  function Switches(o: Options): (on: seq<bool>)
  {
    [o.punc, o.unknown, o.lower, o.rule]
  }

  /** The engine executable inside the package directory `dir`. */
  function ExecutablePath(dir: string): (path: string)
  {
    dir + "/main.exe"
  }

  /** The names whose switch is on, in their original order. */
  function Select(names: seq<string>, on: seq<bool>): (chosen: seq<string>)
    requires |names| == |on|
    ensures forall x | x in chosen :: x in names
  {
    if names == [] then []
    else (if on[0] then [names[0]] else []) + Select(names[1..], on[1..])
  }

  /** How many switches are on. */
  function CountTrue(on: seq<bool>): (n: nat)
  {
    if on == [] then 0 else (if on[0] then 1 else 0) + CountTrue(on[1..])
  }

  /** No name is listed twice. */
  predicate Distinct(names: seq<string>)
  {
    forall i, j | 0 <= i < j < |names| :: names[i] != names[j]
  }

  /** The position of `x` in `names`. */
  function IndexOf(names: seq<string>, x: string): (k: nat)
    requires x in names
    ensures k < |names| && names[k] == x
    ensures forall j | 0 <= j < k :: names[j] != x
  {
    if names[0] == x then 0 else 1 + IndexOf(names[1..], x)
  }

  /** Every name is selected exactly when its switch is on. */
  lemma {:induction false} SelectPresence(names: seq<string>, on: seq<bool>)
    requires |names| == |on| && Distinct(names)
    ensures forall k | 0 <= k < |names| :: names[k] in Select(names, on) <==> on[k]
  {
    if names != [] {
      SelectPresence(names[1..], on[1..]);
      var rest := Select(names[1..], on[1..]);
      assert names[0] !in names[1..];
      assert names[0] !in rest;
      forall k | 1 <= k < |names|
        ensures names[k] in Select(names, on) <==> on[k]
      {
        assert names[1..][k - 1] == names[k];
        assert names[k] != names[0];
      }
    }
  }

  /** One name is selected for every switch that is on. */
  lemma {:induction false} SelectLength(names: seq<string>, on: seq<bool>)
    requires |names| == |on|
    ensures |Select(names, on)| == CountTrue(on)
  {
    if names != [] {
      SelectLength(names[1..], on[1..]);
    }
  }

  /** Past a different first name, positions are one more than in the tail. */
  lemma IndexOfTail(names: seq<string>, x: string)
    requires names != [] && x in names[1..] && names[0] !in names[1..]
    ensures IndexOf(names, x) == 1 + IndexOf(names[1..], x)
  {
  }

  /** The selected names keep the relative order they have in `names`. */
  lemma {:induction false} SelectOrder(names: seq<string>, on: seq<bool>)
    requires |names| == |on| && Distinct(names)
    ensures forall i, j | 0 <= i < j < |Select(names, on)| ::
      IndexOf(names, Select(names, on)[i]) < IndexOf(names, Select(names, on)[j])
  {
    if names != [] {
      var tail := names[1..];
      var rest := Select(tail, on[1..]);
      DistinctTail(names);
      SelectOrder(tail, on[1..]);
      var head := if on[0] then [names[0]] else [];
      var chosen := Select(names, on);
      assert chosen == head + rest;
      var d := |head|;
      forall k | 0 <= k < |rest|
        ensures IndexOf(names, rest[k]) == 1 + IndexOf(tail, rest[k])
      {
        IndexOfTail(names, rest[k]);
      }
      forall i, j | 0 <= i < j < |chosen|
        ensures IndexOf(names, chosen[i]) < IndexOf(names, chosen[j])
      {
        assert chosen[j] == rest[j - d];
        if i >= d {
          assert chosen[i] == rest[i - d];
        }
      }
    }
  }

  /** Dropping the first name keeps the rest distinct, and the first name is not among them. */
  lemma DistinctTail(names: seq<string>)
    requires names != [] && Distinct(names)
    ensures Distinct(names[1..]) && names[0] !in names[1..]
  {
    var tail := names[1..];
    forall i, j | 0 <= i < j < |tail|
      ensures tail[i] != tail[j]
    {
      assert tail[i] == names[i + 1] && tail[j] == names[j + 1];
    }
  }

  /** The argument list handed to the engine: the executable, then the switches that are on. */
  function Command(dir: string, o: Options): (command: seq<string>)
  {
    [ExecutablePath(dir)] + Select(FlagNames, Switches(o))
  }

  /** The list is built by appending each switch that is on, one `if` per option. */
  method BuildCommand(dir: string, o: Options) returns (command: seq<string>)
    ensures command == Command(dir, o)
  {
    command := [ExecutablePath(dir)];
    if o.punc {
      command := command + ["-punc"];
    }
    if o.unknown {
      command := command + ["-unknown"];
    }
    if o.lower {
      command := command + ["-lower"];
    }
    if o.rule {
      command := command + ["-rule"];
    }
    assert Select(FlagNames[3..], Switches(o)[3..]) == if o.rule then ["-rule"] else [];
    assert Select(FlagNames[2..], Switches(o)[2..])
      == (if o.lower then ["-lower"] else []) + Select(FlagNames[3..], Switches(o)[3..]);
    assert Select(FlagNames[1..], Switches(o)[1..])
      == (if o.unknown then ["-unknown"] else []) + Select(FlagNames[2..], Switches(o)[2..]);
  }

  /** The list starts with the executable, and that element is never a switch. */
  lemma CommandHead(dir: string, o: Options)
    ensures |Command(dir, o)| >= 1
    ensures Command(dir, o)[0] == dir + "/main.exe"
    ensures Command(dir, o)[0] !in FlagNames
  {
  }

  /** Each switch is in the list exactly when its option is set. */
  lemma CommandFlags(dir: string, o: Options)
    ensures "-punc" in Command(dir, o) <==> o.punc
    ensures "-unknown" in Command(dir, o) <==> o.unknown
    ensures "-lower" in Command(dir, o) <==> o.lower
    ensures "-rule" in Command(dir, o) <==> o.rule
  {
    SelectPresence(FlagNames, Switches(o));
    var c := Command(dir, o);
    assert FlagNames[0] == "-punc" && FlagNames[1] == "-unknown";
    assert FlagNames[2] == "-lower" && FlagNames[3] == "-rule";
    assert forall f | f in FlagNames :: f in c <==> f in c[1..];
  }

  /** One list element for the executable and one per option that is set. */
  lemma CommandLength(dir: string, o: Options)
    ensures |Command(dir, o)| == 1 + CountTrue(Switches(o))
  {
    SelectLength(FlagNames, Switches(o));
  }

  /**
   After the executable come only switches, and any two of them appear in the
   fixed order -punc, -unknown, -lower, -rule.
   */
  lemma CommandOrder(dir: string, o: Options)
    ensures forall i | 1 <= i < |Command(dir, o)| :: Command(dir, o)[i] in FlagNames
    ensures forall i, j | 1 <= i < j < |Command(dir, o)| ::
      IndexOf(FlagNames, Command(dir, o)[i]) < IndexOf(FlagNames, Command(dir, o)[j])
  {
    SelectOrder(FlagNames, Switches(o));
    var chosen := Select(FlagNames, Switches(o));
    assert forall i | 1 <= i < |Command(dir, o)| :: Command(dir, o)[i] == chosen[i - 1];
  }

  /** With the default keyword arguments the engine runs with -unknown -lower. */
  lemma DefaultCommand(dir: string)
    ensures Command(dir, Defaults) == [dir + "/main.exe", "-unknown", "-lower"]
  {
  }

  /** The four option sets the package's command-construction test lists, with the switches it expects. */
  lemma TestedCombinations(dir: string)
    ensures Command(dir, Options(false, true, true, false))[1..] == ["-unknown", "-lower"]
    ensures Command(dir, Options(true, true, true, false))[1..] == ["-punc", "-unknown", "-lower"]
    ensures Command(dir, Options(false, true, false, false))[1..] == ["-unknown"]
    ensures Command(dir, Options(false, true, true, true))[1..] == ["-unknown", "-lower", "-rule"]
  {
  }

  // ---------------------------------------------------------------------------
  // Output reassembly
  // ---------------------------------------------------------------------------

  /** What the engine writes between two sentences. */
  const Delimiter := "#line#"

  /** What the wrapper writes after every sentence. */
  const Stop := ". "

  /** The pieces that are not empty, in their original order. */
  function NonEmpty(pieces: seq<string>): (kept: seq<string>)
    ensures forall s :: s in kept <==> s in pieces && s != ""
  {
    if pieces == [] then []
    else (if pieces[0] == "" then [] else [pieces[0]]) + NonEmpty(pieces[1..])
  }

  /** Every sentence followed by ". ", all concatenated in order. */
  function Terminated(sentences: seq<string>): (text: string)
  {
    if sentences == [] then "" else sentences[0] + Stop + Terminated(sentences[1..])
  }

  /** The wrapper's text for a list of split pieces: empty pieces vanish, the rest end in ". ". */
  function Reassemble(pieces: seq<string>): (text: string)
  {
    Terminated(NonEmpty(pieces))
  }

  /** What `TTSnorm` returns for the engine's output. */
  function Rejoin(output: string): (text: string)
  {
    Reassemble(Split(output, Delimiter))
  }

  lemma {:induction false} NonEmptyNone(pieces: seq<string>)
    requires forall p | p in pieces :: p == ""
    ensures NonEmpty(pieces) == []
  {
    if pieces != [] {
      assert pieces[0] in pieces;
      assert forall p | p in pieces[1..] :: p in pieces;
      NonEmptyNone(pieces[1..]);
    }
  }

  lemma {:induction false} NonEmptyAppend(a: seq<string>, b: seq<string>)
    ensures NonEmpty(a + b) == NonEmpty(a) + NonEmpty(b)
  {
    if a != [] {
      assert (a + b)[1..] == a[1..] + b;
      NonEmptyAppend(a[1..], b);
    } else {
      assert a + b == b;
    }
  }

  lemma {:induction false} TerminatedAppend(a: seq<string>, b: seq<string>)
    ensures Terminated(a + b) == Terminated(a) + Terminated(b)
  {
    if a != [] {
      assert (a + b)[1..] == a[1..] + b;
      TerminatedAppend(a[1..], b);
    } else {
      assert a + b == b;
    }
  }

  /** One more piece adds nothing when it is empty and the piece followed by ". " otherwise. */
  lemma ReassembleSnoc(pieces: seq<string>, s: string)
    ensures Reassemble(pieces + [s]) == Reassemble(pieces) + (if s == "" then "" else s + Stop)
  {
    NonEmptyAppend(pieces, [s]);
    TerminatedAppend(NonEmpty(pieces), NonEmpty([s]));
    assert NonEmpty([s]) == if s == "" then [] else [s];
  }

  /** The accumulation loop over the split pieces: skip empty ones, append the rest with ". ". */
  method JoinSentences(output: string) returns (text: string)
    ensures text == Rejoin(output)
    ensures !Contains(text, Delimiter)
    ensures text == "" || EndsWith(text, Stop)
  {
    var pieces := Split(output, Delimiter);
    text := "";
    for i := 0 to |pieces|
      invariant text == Reassemble(pieces[..i])
    {
      assert pieces[..i + 1] == pieces[..i] + [pieces[i]];
      ReassembleSnoc(pieces[..i], pieces[i]);
      if pieces[i] == "" {
        continue;
      }
      text := text + pieces[i] + Stop;
    }
    assert pieces[..|pieces|] == pieces;
    RejoinNoDelimiter(output);
    RejoinEndsWithStop(output);
  }

  /** No occurrence of the delimiter covers a '.' or a ' '. */
  lemma NotAcross(t: string, i: nat, p: nat)
    requires i <= p < i + |Delimiter| && p < |t|
    requires t[p] == '.' || t[p] == ' '
    ensures !OccursAt(t, Delimiter, i)
  {
    if i + |Delimiter| <= |t| {
      assert t[i..i + |Delimiter|][p - i] == t[p];
      assert Delimiter[p - i] != '.' && Delimiter[p - i] != ' ';
    }
  }

  /** Sentences free of the delimiter stay free of it once terminated and concatenated. */
  lemma {:induction false} TerminatedNoDelimiter(sentences: seq<string>)
    requires forall s | s in sentences :: !Contains(s, Delimiter)
    ensures !Contains(Terminated(sentences), Delimiter)
  {
    if sentences != [] {
      var s := sentences[0];
      var rest := sentences[1..];
      assert s in sentences;
      assert forall x | x in rest :: x in sentences;
      TerminatedNoDelimiter(rest);
      var t := Terminated(sentences);
      var after := Terminated(rest);
      assert t == s + Stop + after;
      forall i: nat | i <= |t|
        ensures !OccursAt(t, Delimiter, i)
      {
        if i + |Delimiter| <= |s| {
          assert !OccursAt(s, Delimiter, i);
          assert t[i..i + |Delimiter|] == s[i..i + |Delimiter|];
        } else if i <= |s| {
          NotAcross(t, i, |s|);
        } else if i == |s| + 1 {
          NotAcross(t, i, |s| + 1);
        } else {
          var k := i - |s| - 2;
          assert !OccursAt(after, Delimiter, k);
          if i + |Delimiter| <= |t| {
            assert t[i..i + |Delimiter|] == after[k..k + |Delimiter|];
          }
        }
      }
    }
  }

  /** The result never contains the delimiter. */
  lemma RejoinNoDelimiter(output: string)
    ensures !Contains(Rejoin(output), Delimiter)
  {
    var pieces := Split(output, Delimiter);
    SplitPiecesFree(output, Delimiter);
    TerminatedNoDelimiter(NonEmpty(pieces));
  }

  /** A terminated text is empty exactly when there are no sentences, and ends in ". " otherwise. */
  lemma {:induction false} TerminatedEnd(sentences: seq<string>)
    ensures Terminated(sentences) == "" <==> sentences == []
    ensures sentences != [] ==> EndsWith(Terminated(sentences), Stop)
  {
    if sentences != [] {
      TerminatedEnd(sentences[1..]);
    }
  }

  /** Every non-empty result ends in ". ", after the last sentence too. */
  lemma RejoinEndsWithStop(output: string)
    ensures Rejoin(output) == "" || EndsWith(Rejoin(output), Stop)
  {
    TerminatedEnd(NonEmpty(Split(output, Delimiter)));
  }

  /** The result is empty exactly when the output is nothing but delimiters (possibly none). */
  lemma RejoinEmpty(output: string)
    ensures Rejoin(output) == "" <==> exists n: nat :: output == Repeat(Delimiter, n)
  {
    var pieces := Split(output, Delimiter);
    TerminatedEnd(NonEmpty(pieces));
    if Rejoin(output) == "" {
      assert forall p | p in pieces :: p == "";
      JoinSplit(output, Delimiter);
      JoinEmpties(Delimiter, pieces);
      assert output == Repeat(Delimiter, |pieces| - 1);
    }
    forall n: nat | output == Repeat(Delimiter, n)
      ensures Rejoin(output) == ""
    {
      SplitRepeat(Delimiter, n);
      assert forall p | p in pieces :: p == "";
      NonEmptyNone(pieces);
    }
  }

  /** Output without a delimiter is one sentence: the text itself followed by ". ". */
  lemma RejoinSingle(output: string)
    requires output != "" && !Contains(output, Delimiter)
    ensures Rejoin(output) == output + Stop
  {
    SplitNoOccurrence(output, Delimiter);
    assert NonEmpty([output]) == [output] + NonEmpty([]);
    assert Terminated([output]) == output + Stop + Terminated([]);
  }

  /**
   A sentence without `#line#` that does not end in "#line" is cut cleanly by
   the delimiter written after it: "#line#" overlaps itself only in its '#'
   at either end, so the only straddling match starts five characters early.
   */
  lemma CleanCut(p: string)
    requires !Contains(p, Delimiter) && !EndsWith(p, "#line")
    ensures CutsCleanly(p, Delimiter)
  {
    var w := p + Delimiter;
    forall j: nat | j < |p|
      ensures !OccursAt(w, Delimiter, j)
    {
      if j + |Delimiter| <= |p| {
        assert !OccursAt(p, Delimiter, j);
        assert w[j..j + |Delimiter|] == p[j..j + |Delimiter|];
      } else {
        var m := |p| - j;
        var window := w[j..j + |Delimiter|];
        assert window[m] == w[|p|] == '#';
        if m < 5 {
          assert Delimiter[m] != '#';
        } else {
          assert w[j..j + 5] == p[j..];
          assert window[..5] == p[|p| - 5..];
          assert Delimiter[..5] == "#line";
        }
      }
    }
  }

  /**
   For sentences as the engine writes them, `#line#` between neighbours, the
   result keeps every non-empty sentence, in order, each followed by ". ",
   provided no sentence holds `#line#` and none but the last ends in "#line".
   */
  lemma RejoinSentences(sentences: seq<string>)
    requires forall s | s in sentences :: !Contains(s, Delimiter)
    requires forall k | 0 <= k < |sentences| - 1 :: !EndsWith(sentences[k], "#line")
    ensures Rejoin(Join(Delimiter, sentences)) == Terminated(NonEmpty(sentences))
  {
    if sentences == [] {
      RejoinNothing();
    } else {
      SentencesCutCleanly(sentences);
      RejoinCleanCuts(sentences);
    }
  }

  /** No sentences join to the empty output, which gives the empty text. */
  lemma RejoinNothing()
    ensures Rejoin(Join(Delimiter, [])) == Terminated(NonEmpty([])) == ""
  {
    assert Split("", Delimiter) == [""];
    assert NonEmpty([""]) == [] + NonEmpty([]);
  }

  /** The round trip of `RejoinSentences`, with its conditions stated as clean cuts. */
  lemma RejoinCleanCuts(sentences: seq<string>)
    requires sentences != []
    requires !Contains(sentences[|sentences| - 1], Delimiter)
    requires forall k | 0 <= k < |sentences| - 1 :: CutsCleanly(sentences[k], Delimiter)
    ensures Rejoin(Join(Delimiter, sentences)) == Terminated(NonEmpty(sentences))
  {
    SplitJoin(Delimiter, sentences);
  }

  /** Under the conditions of `RejoinSentences`, every sentence but the last is cut cleanly. */
  lemma SentencesCutCleanly(sentences: seq<string>)
    requires sentences != []
    requires forall s | s in sentences :: !Contains(s, Delimiter)
    requires forall k | 0 <= k < |sentences| - 1 :: !EndsWith(sentences[k], "#line")
    ensures !Contains(sentences[|sentences| - 1], Delimiter)
    ensures forall k | 0 <= k < |sentences| - 1 :: CutsCleanly(sentences[k], Delimiter)
  {
    assert sentences[|sentences| - 1] in sentences;
    forall k | 0 <= k < |sentences| - 1
      ensures CutsCleanly(sentences[k], Delimiter)
    {
      assert sentences[k] in sentences;
      CleanCut(sentences[k]);
    }
  }

  /** The leftmost `#line#` in "x#line#line#y" starts inside "x#line". */
  lemma StraddledSplit()
    ensures Split("x#line#line#y", Delimiter) == ["x", "line#y"]
  {
    var t := "x#line#line#y";
    assert t[..6][0] == 'x' != Delimiter[0];
    assert t[1..7] == Delimiter;
    SplitLeftmost(t, Delimiter, 1);
    assert t[..1] == "x" && t[7..] == "line#y";
    assert "line#y"[..6] != Delimiter;
    SplitNoOccurrence("line#y", Delimiter);
  }

  /**
   A sentence that ends in "#line" merges with the delimiter after it: the
   split cuts one character early, so the first sentence loses "#line" and
   the next one gains "line#".
   */
  lemma StraddledSentences()
    ensures Join(Delimiter, ["x#line", "y"]) == "x#line#line#y"
    ensures Rejoin("x#line#line#y") == "x. line#y. "
    ensures Terminated(NonEmpty(["x#line", "y"])) == "x#line. y. "
  {
    StraddledSplit();
    assert Rejoin("x#line#line#y") == Terminated(NonEmpty(["x", "line#y"]));
    assert NonEmpty(["x", "line#y"]) == ["x", "line#y"];
  }

  // ---------------------------------------------------------------------------
  // The wrapper
  // ---------------------------------------------------------------------------

  /**
   `TTSnorm` with the package directory `dir`, the keyword options `o` and the
   text the engine left in output.txt: the argument list it runs the engine
   with, and the text it returns.
   */
  method TTSnorm(dir: string, o: Options, output: string) returns (command: seq<string>, text: string)
    ensures command == Command(dir, o)
    ensures text == Rejoin(output)
  {
    command := BuildCommand(dir, o);
    text := JoinSentences(output);
  }
}
