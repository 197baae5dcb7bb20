/**
 * Splitting an identifier into words at camel-case boundaries, as the
 * `camelcase.Split` function that `getEnvName` calls does it, for ASCII text:
 * 1. cut the text into maximal runs of one character class;
 * 2. where an upper-case run is followed by a lower-case run, move the last
 *    capital over to start the lower-case word ("PDFL" "oader" becomes
 *    "PDF" "Loader");
 * 3. drop the runs that step 2 left empty.
 */
module CamelCase {
  import opened GoStrings

  datatype CharClass = Lower | Upper | Digit | Other

  function ClassOf(c: char): CharClass {
    if IsLowerAscii(c) then Lower
    else if IsUpperAscii(c) then Upper
    else if '0' <= c <= '9' then Digit
    else Other
  }

  predicate AllNonEmpty(words: seq<string>) {
    forall i :: 0 <= i < |words| ==> words[i] != []
  }

  /** Step 1: the maximal runs of characters of one class, left to right. */
  function Runs(s: string): (runs: seq<string>)
    ensures AllNonEmpty(runs)
    ensures Concat(runs) == s
  {
    if s == [] then []
    else
      var rest := Runs(s[1..]);
      if rest != [] && ClassOf(rest[0][0]) == ClassOf(s[0]) then
        assert Concat(rest) == rest[0] + Concat(rest[1..]);
        [[s[0]] + rest[0]] + rest[1..]
      else
        [[s[0]]] + rest
  }

  /**
   * Step 2, a pass from left to right over neighbouring runs: when the
   * current run starts with a capital and the next one with a lower-case
   * letter, the current run's last character moves to the front of the next.
   */
  function MoveCapitals(runs: seq<string>): (r: seq<string>)
    requires AllNonEmpty(runs)
    ensures |r| == |runs|
    ensures Concat(r) == Concat(runs)
    decreases |runs|
  {
    if |runs| < 2 then runs
    else if IsUpperAscii(runs[0][0]) && IsLowerAscii(runs[1][0]) then
      var head := runs[0];
      var next := [[head[|head| - 1]] + runs[1]] + runs[2..];
      var moved := MoveCapitals(next);
      assert Concat(next) == [head[|head| - 1]] + runs[1] + Concat(runs[2..]);
      assert Concat(runs) == head + (runs[1] + Concat(runs[2..]));
      assert head == head[..|head| - 1] + [head[|head| - 1]];
      [head[..|head| - 1]] + moved
    else
      [runs[0]] + MoveCapitals(runs[1..])
  }

  /** Step 3: the words that are not empty, in order. */
  function DropEmpty(words: seq<string>): (r: seq<string>)
    ensures AllNonEmpty(r)
    ensures Concat(r) == Concat(words)
    ensures |r| <= |words|
  {
    if words == [] then []
    else if words[0] == [] then DropEmpty(words[1..])
    else [words[0]] + DropEmpty(words[1..])
  }

  /** A word is kept exactly when it is not empty. */
  lemma {:induction false} DropEmptyKeeps(words: seq<string>, w: string)
    ensures w in DropEmpty(words) <==> w in words && w != []
  {
    if words != [] {
      DropEmptyKeeps(words[1..], w);
      assert words == [words[0]] + words[1..];
    }
  }

  /** Step 3 keeps the order: it works on each part of a list separately. */
  lemma {:induction false} DropEmptyAppend(a: seq<string>, b: seq<string>)
    ensures DropEmpty(a + b) == DropEmpty(a) + DropEmpty(b)
  {
    if a != [] {
      assert (a + b)[0] == a[0] && (a + b)[1..] == a[1..] + b;
      DropEmptyAppend(a[1..], b);
    } else {
      assert a + b == b;
    }
  }

  /** The words of `s`. */
  function Split(s: string): (words: seq<string>)
    ensures AllNonEmpty(words)
  {
    DropEmpty(MoveCapitals(Runs(s)))
  }

  /** The words, written one after the other, spell the input again: no character is lost, added or reordered. */
  lemma SplitCovers(s: string)
    ensures Concat(Split(s)) == s
  {
  }

  /** A word holds only characters of the input. */
  lemma SplitWordsFromInput(s: string, i: nat, c: char)
    requires i < |Split(s)| && c in Split(s)[i]
    ensures c in s
  {
    InConcat(Split(s), i, c);
    SplitCovers(s);
  }

  /** Each run holds characters of one class, and neighbouring runs differ in class. */
  predicate Uniform(run: string) {
    forall k :: 0 <= k < |run| ==> ClassOf(run[k]) == ClassOf(run[0])
  }

  lemma {:induction false} RunsMaximal(s: string)
    ensures forall i :: 0 <= i < |Runs(s)| ==> Uniform(Runs(s)[i])
    ensures forall i :: 0 <= i < |Runs(s)| - 1 ==> ClassOf(Runs(s)[i][0]) != ClassOf(Runs(s)[i + 1][0])
  {
    if s != [] {
      var rest := Runs(s[1..]);
      RunsMaximal(s[1..]);
      if rest != [] && ClassOf(rest[0][0]) == ClassOf(s[0]) {
        var runs := Runs(s);
        assert runs == [[s[0]] + rest[0]] + rest[1..];
        assert Uniform(runs[0]) by {
          assert Uniform(rest[0]);
        }
        assert forall i :: 1 <= i < |runs| ==> runs[i] == rest[i];
      }
    }
  }

  /** The first run starts with the first character. */
  lemma RunsHead(s: string)
    requires s != []
    ensures Runs(s) != [] && Runs(s)[0][0] == s[0]
  {
  }

  /** A character of the same class as the next one joins the first run. */
  lemma RunsExtend(c: char, s: string)
    requires s != [] && ClassOf(c) == ClassOf(s[0])
    ensures Runs([c] + s) == [[c] + Runs(s)[0]] + Runs(s)[1..]
  {
    assert ([c] + s)[1..] == s;
    RunsHead(s);
  }

  /** A character of another class than the next one starts a run of its own. */
  lemma RunsStart(c: char, s: string)
    requires s == [] || ClassOf(c) != ClassOf(s[0])
    ensures Runs([c] + s) == [[c]] + Runs(s)
  {
    assert ([c] + s)[1..] == s;
    if s != [] {
      RunsHead(s);
    }
  }

  /** A capital run before a lower-case run hands its last character over. */
  lemma MoveCapitalsShift(head: string, next: string, rest: seq<string>)
    requires head != [] && next != [] && AllNonEmpty(rest)
    requires IsUpperAscii(head[0]) && IsLowerAscii(next[0])
    ensures MoveCapitals([head, next] + rest) == [head[..|head| - 1]] + MoveCapitals([[head[|head| - 1]] + next] + rest)
  {
    var runs := [head, next] + rest;
    assert runs[2..] == rest;
  }

  /** Any other run is kept as it is. */
  lemma MoveCapitalsKeep(head: string, rest: seq<string>)
    requires head != [] && AllNonEmpty(rest)
    requires rest != [] ==> !(IsUpperAscii(head[0]) && IsLowerAscii(rest[0][0]))
    ensures MoveCapitals([head] + rest) == [head] + MoveCapitals(rest)
  {
    assert ([head] + rest)[1..] == rest;
  }

  lemma SplitName()
    ensures Split("Name") == ["Name"]
  {
    RunsStart('e', "");
    RunsExtend('m', "e");
    RunsExtend('a', "me");
    RunsStart('N', "ame");
    MoveCapitalsShift("N", "ame", []);
    assert ['N'] + "ame" == "Name";
    MoveCapitalsKeep("Name", []);
    assert DropEmpty(["", "Name"]) == ["Name"];
  }

  lemma SplitDriver()
    ensures Split("Driver") == ["Driver"]
  {
    RunsStart('r', "");
    RunsExtend('e', "r");
    RunsExtend('v', "er");
    RunsExtend('i', "ver");
    RunsExtend('r', "iver");
    RunsStart('D', "river");
    MoveCapitalsShift("D", "river", []);
    assert ['D'] + "river" == "Driver";
    MoveCapitalsKeep("Driver", []);
    assert DropEmpty(["", "Driver"]) == ["Driver"];
  }

  lemma RunsURL()
    ensures Runs("URL") == ["URL"]
  {
    RunsStart('L', "");
    RunsExtend('R', "L");
    RunsExtend('U', "RL");
  }

  lemma RunsEURL()
    ensures Runs("eURL") == ["e", "URL"]
  {
    RunsURL();
    RunsStart('e', "URL");
    assert ['e'] + "URL" == "eURL";
  }

  lemma RunsSeURL()
    ensures Runs("seURL") == ["se", "URL"]
  {
    RunsEURL();
    RunsExtend('s', "eURL");
    assert ['s'] + "eURL" == "seURL" && ['s'] + "e" == "se";
  }

  lemma RunsAseURL()
    ensures Runs("aseURL") == ["ase", "URL"]
  {
    RunsSeURL();
    RunsExtend('a', "seURL");
    assert ['a'] + "seURL" == "aseURL" && ['a'] + "se" == "ase";
  }

  lemma RunsBaseURL()
    ensures Runs("BaseURL") == ["B", "ase", "URL"]
  {
    RunsAseURL();
    RunsStart('B', "aseURL");
  }

  /** The acronym stays one word: "BaseURL" splits into "Base" and "URL". */
  lemma SplitBaseURL()
    ensures Split("BaseURL") == ["Base", "URL"]
  {
    RunsBaseURL();
    MoveCapitalsBaseURL();
    assert DropEmpty(["", "Base", "URL"]) == ["Base", "URL"];
  }

  lemma MoveCapitalsBaseURL()
    ensures MoveCapitals(["B", "ase", "URL"]) == ["", "Base", "URL"]
  {
    MoveCapitalsShift("B", "ase", ["URL"]);
    assert ['B'] + "ase" == "Base";
    MoveCapitalsKeep("Base", ["URL"]);
    MoveCapitalsKeep("URL", []);
  }

  lemma RunsLoader()
    ensures Runs("Loader") == ["L", "oader"]
  {
    RunsStart('r', "");
    RunsExtend('e', "r");
    RunsExtend('d', "er");
    RunsExtend('a', "der");
    RunsExtend('o', "ader");
    RunsStart('L', "oader");
  }

  lemma RunsFLoader()
    ensures Runs("FLoader") == ["FL", "oader"]
  {
    RunsLoader();
    RunsExtend('F', "Loader");
    assert ['F'] + "L" == "FL";
  }

  lemma RunsDFLoader()
    ensures Runs("DFLoader") == ["DFL", "oader"]
  {
    RunsFLoader();
    RunsExtend('D', "FLoader");
    assert ['D'] + "FL" == "DFL";
  }

  lemma RunsPDFLoader()
    ensures Runs("PDFLoader") == ["PDFL", "oader"]
  {
    RunsDFLoader();
    RunsExtend('P', "DFLoader");
    assert ['P'] + "DFL" == "PDFL";
  }

  lemma MoveCapitalsPDFLoader()
    ensures MoveCapitals(["PDFL", "oader"]) == ["PDF", "Loader"]
  {
    MoveCapitalsShift("PDFL", "oader", []);
    assert "PDFL"[..3] == "PDF";
    assert ['L'] + "oader" == "Loader";
    MoveCapitalsKeep("Loader", []);
  }

  /** An acronym followed by a word gives its last capital to the word. */
  lemma SplitPDFLoader()
    ensures Split("PDFLoader") == ["PDF", "Loader"]
  {
    RunsPDFLoader();
    MoveCapitalsPDFLoader();
    assert DropEmpty(["PDF", "Loader"]) == ["PDF", "Loader"];
  }

  // Where the words begin. A word boundary of the split is described
  // character by character, and the three steps are shown to produce
  // exactly those boundaries.

  /** The position at which word `j` begins when the words are written one after another. */
  function Offset(words: seq<string>, j: nat): nat
    requires j <= |words|
  {
    |Concat(words[..j])|
  }

  /** A word other than the first begins at position `k`. */
  predicate StartsWord(words: seq<string>, k: int) {
    exists j :: 0 < j < |words| && Offset(words, j) == k
  }

  /**
   * The split cuts `s` in front of position `k` when the classes of the two
   * neighbouring characters differ, except between a capital and the
   * lower-case letter after it; or in front of the last capital of an
   * acronym that a lower-case letter follows.
   */
  predicate IsCut(s: string, k: nat)
    requires 0 < k < |s|
  {
    (ClassOf(s[k - 1]) != ClassOf(s[k]) && !(IsUpperAscii(s[k - 1]) && IsLowerAscii(s[k])))
    || (IsUpperAscii(s[k - 1]) && IsUpperAscii(s[k]) && k + 1 < |s| && IsLowerAscii(s[k + 1]))
  }

  lemma OffsetStep(words: seq<string>, j: nat)
    requires j < |words|
    ensures Offset(words, j + 1) == Offset(words, j) + |words[j]|
  {
    assert words[..j + 1] == words[..j] + [words[j]];
    ConcatAppend(words[..j], [words[j]]);
    assert Concat([words[j]]) == words[j] + Concat([]);
  }

  lemma OffsetCons(words: seq<string>, j: nat)
    requires 0 < j <= |words|
    ensures Offset(words, j) == |words[0]| + Offset(words[1..], j - 1)
  {
    assert words[..j] == [words[0]] + words[1..][..j - 1];
  }

  /** Character `t` of word `j` sits at position `Offset(words, j) + t` of the concatenation. */
  lemma ConcatAt(words: seq<string>, j: nat, t: nat)
    requires j < |words| && t < |words[j]|
    ensures Offset(words, j) + t < |Concat(words)|
    ensures Concat(words)[Offset(words, j) + t] == words[j][t]
  {
    assert words == words[..j] + words[j..];
    ConcatAppend(words[..j], words[j..]);
    assert words[j..] == [words[j]] + words[j + 1..];
  }

  lemma OffsetMonotone(words: seq<string>, a: nat, b: nat)
    requires AllNonEmpty(words) && a <= b <= |words|
    ensures Offset(words, a) + (b - a) <= Offset(words, b)
    decreases b - a
  {
    if a < b {
      OffsetStep(words, a);
      OffsetMonotone(words, a + 1, b);
    }
  }

  /** Every position of the concatenation lies inside exactly one word. */
  lemma Locate(words: seq<string>, k: nat) returns (j: nat, t: nat)
    requires AllNonEmpty(words) && k < |Concat(words)|
    ensures j < |words| && t < |words[j]| && Offset(words, j) + t == k
  {
    assert words[..|words|] == words;
    j := 0;
    while Offset(words, j) + |words[j]| <= k
      invariant j < |words| && Offset(words, j) <= k
      decreases |words| - j
    {
      OffsetStep(words, j);
      j := j + 1;
    }
    t := k - Offset(words, j);
  }

  /** The runs of step 1: non-empty, uniform in class, and alternating in class. */
  predicate ClassRuns(s: string, runs: seq<string>) {
    && AllNonEmpty(runs)
    && Concat(runs) == s
    && (forall i :: 0 <= i < |runs| ==> Uniform(runs[i]))
    && (forall i :: 0 <= i < |runs| - 1 ==> ClassOf(runs[i][0]) != ClassOf(runs[i + 1][0]))
  }

  /** In such runs, a run begins exactly where the character class changes. */
  lemma ClassRunsCut(s: string, runs: seq<string>, k: nat)
    requires ClassRuns(s, runs) && 0 < k < |s|
    ensures StartsWord(runs, k) <==> ClassOf(s[k - 1]) != ClassOf(s[k])
  {
    var j, t := Locate(runs, k);
    ConcatAt(runs, j, t);
    assert Uniform(runs[j]);
    if t > 0 {
      ConcatAt(runs, j, t - 1);
      forall i | 0 < i < |runs|
        ensures Offset(runs, i) != k
      {
        if i <= j {
          OffsetMonotone(runs, i, j);
        } else {
          OffsetStep(runs, j);
          OffsetMonotone(runs, j + 1, i);
        }
      }
    } else {
      assert j > 0;
      OffsetStep(runs, j - 1);
      ConcatAt(runs, j - 1, |runs[j - 1]| - 1);
      assert Uniform(runs[j - 1]);
    }
  }

  /** Step 1 begins a new run exactly where the character class changes. */
  lemma RunsCut(s: string, k: nat)
    requires 0 < k < |s|
    ensures StartsWord(Runs(s), k) <==> ClassOf(s[k - 1]) != ClassOf(s[k])
  {
    RunsMaximal(s);
    ClassRunsCut(s, Runs(s), k);
  }

  /** Run `i` starts with a capital and the next run with a lower-case letter: step 2 moves a capital from run `i` to run `i + 1`. */
  predicate Hands(runs: seq<string>, i: int)
    requires AllNonEmpty(runs)
  {
    0 <= i && i + 1 < |runs| && IsUpperAscii(runs[i][0]) && IsLowerAscii(runs[i + 1][0])
  }

  /** Neighbouring runs start with characters of different classes. */
  predicate Alternating(runs: seq<string>)
    requires AllNonEmpty(runs)
  {
    forall i :: 0 <= i < |runs| - 1 ==> ClassOf(runs[i][0]) != ClassOf(runs[i + 1][0])
  }

  /** Run `i` after step 2: it gains the last capital of the run before it, and loses its own last capital, when those are handed on. */
  function Moved(runs: seq<string>, i: nat): string
    requires AllNonEmpty(runs) && i < |runs|
  {
    (if i > 0 && Hands(runs, i - 1) then [runs[i - 1][|runs[i - 1]| - 1]] else [])
    + (if Hands(runs, i) then runs[i][..|runs[i]| - 1] else runs[i])
  }

  /** Dropping the first run shifts the description of step 2 by one place. */
  lemma MovedTail(runs: seq<string>, i: nat)
    requires AllNonEmpty(runs) && 0 < i < |runs|
    ensures Moved(runs, i) == (if i == 1 && Hands(runs, 0) then [runs[0][|runs[0]| - 1]] else []) + Moved(runs[1..], i - 1)
  {
    var tail := runs[1..];
    assert AllNonEmpty(tail);
    assert Hands(tail, i - 1) == Hands(runs, i);
    if i > 1 {
      assert Hands(tail, i - 2) == Hands(runs, i - 1);
      assert tail[i - 2] == runs[i - 1];
    }
  }

  /**
   * Step 2 applied after the first run has received `p`: a run is only ever
   * handed one capital, and then starts a lower-case word, so the check made
   * on the changed run gives the same answer as on the original one.
   */
  lemma {:induction false} MoveCapitalsFrom(p: string, runs: seq<string>, i: nat)
    requires AllNonEmpty(runs) && Alternating(runs) && i < |runs|
    requires p == [] || (|p| == 1 && IsLowerAscii(runs[0][0]))
    ensures MoveCapitals([p + runs[0]] + runs[1..])[i] == (if i == 0 then p + Moved(runs, 0) else Moved(runs, i))
    decreases |runs|, 2
  {
    var h := p + runs[0];
    if |runs| == 1 {
      assert [h] + runs[1..] == [h];
    } else if IsUpperAscii(h[0]) && IsLowerAscii(runs[1][0]) {
      assert ClassOf(runs[0][0]) != ClassOf(runs[1][0]);
      assert p == [] && h == runs[0];
      MoveCapitalsHand(runs, i);
    } else {
      MoveCapitalsPass(p, runs, i);
    }
  }

  /** The first run hands its last capital to the second. */
  lemma {:induction false} MoveCapitalsHand(runs: seq<string>, i: nat)
    requires AllNonEmpty(runs) && Alternating(runs) && i < |runs|
    requires Hands(runs, 0)
    ensures MoveCapitals([[] + runs[0]] + runs[1..])[i] == Moved(runs, i)
    decreases |runs|, 1
  {
    var h := runs[0];
    var tail := runs[1..];
    var q := [h[|h| - 1]];
    assert MoveCapitals([[] + runs[0]] + runs[1..]) == [h[..|h| - 1]] + MoveCapitals([q + tail[0]] + tail[1..]) by {
      assert [] + h == h;
      assert tail == [runs[1]] + runs[2..];
      assert [[] + h] + tail == [h, runs[1]] + runs[2..];
      assert AllNonEmpty(runs[2..]) by {
        assert forall k :: 0 <= k < |runs| - 2 ==> runs[2..][k] == runs[k + 2];
      }
      MoveCapitalsShift(h, runs[1], runs[2..]);
      assert [q + tail[0]] + tail[1..] == [[h[|h| - 1]] + runs[1]] + runs[2..];
    }
    if i > 0 {
      assert AllNonEmpty(tail) && Alternating(tail) && IsLowerAscii(tail[0][0]);
      MoveCapitalsFrom(q, tail, i - 1);
      MovedTail(runs, i);
    }
  }

  /** The first run hands nothing on. */
  lemma {:induction false} MoveCapitalsPass(p: string, runs: seq<string>, i: nat)
    requires AllNonEmpty(runs) && Alternating(runs) && 1 < |runs| && i < |runs|
    requires p == [] || (|p| == 1 && IsLowerAscii(runs[0][0]))
    requires !(IsUpperAscii((p + runs[0])[0]) && IsLowerAscii(runs[1][0]))
    ensures MoveCapitals([p + runs[0]] + runs[1..])[i] == (if i == 0 then p + Moved(runs, 0) else Moved(runs, i))
    decreases |runs|, 1
  {
    MoveCapitalsPassHead(p, runs);
    if i > 0 {
      MoveCapitalsTail(runs, i);
    }
  }

  /** The runs after the first, when the first hands nothing on. */
  lemma {:induction false} MoveCapitalsTail(runs: seq<string>, i: nat)
    requires AllNonEmpty(runs) && Alternating(runs) && 0 < i < |runs|
    requires !Hands(runs, 0)
    ensures MoveCapitals(runs[1..])[i - 1] == Moved(runs, i)
    decreases |runs|, 0
  {
    var tail := runs[1..];
    assert AllNonEmpty(tail) && Alternating(tail);
    MoveCapitalsFrom([], tail, i - 1);
    assert [[] + tail[0]] + tail[1..] == tail by {
      assert [] + tail[0] == tail[0];
    }
    MovedTail(runs, i);
  }

  lemma MoveCapitalsPassHead(p: string, runs: seq<string>)
    requires AllNonEmpty(runs) && Alternating(runs) && 1 < |runs|
    requires p == [] || (|p| == 1 && IsLowerAscii(runs[0][0]))
    requires !(IsUpperAscii((p + runs[0])[0]) && IsLowerAscii(runs[1][0]))
    ensures !Hands(runs, 0)
    ensures MoveCapitals([p + runs[0]] + runs[1..]) == [p + runs[0]] + MoveCapitals(runs[1..])
  {
    assert ClassOf(runs[0][0]) != ClassOf(runs[1][0]);
    assert AllNonEmpty(runs[1..]);
    MoveCapitalsKeep(p + runs[0], runs[1..]);
  }

  /** Which character step 2 moves where: run `i` becomes `Moved(runs, i)`. */
  lemma MoveCapitalsAt(runs: seq<string>, i: nat)
    requires AllNonEmpty(runs) && Alternating(runs) && i < |runs|
    ensures MoveCapitals(runs)[i] == Moved(runs, i)
  {
    assert [] + runs[0] == runs[0];
    assert [runs[0]] + runs[1..] == runs;
    MoveCapitalsFrom([], runs, i);
  }

  /** After step 2, a boundary moves one place to the left exactly when a capital is handed across it. */
  lemma {:induction false} MovedOffset(runs: seq<string>, j: nat)
    requires AllNonEmpty(runs) && Alternating(runs) && j <= |runs|
    ensures Offset(MoveCapitals(runs), j) + (if 0 < j && Hands(runs, j - 1) then 1 else 0) == Offset(runs, j)
  {
    if j > 0 {
      MovedOffset(runs, j - 1);
      OffsetStep(MoveCapitals(runs), j - 1);
      OffsetStep(runs, j - 1);
      MoveCapitalsAt(runs, j - 1);
    }
  }

  lemma StartsWordCons(w: string, tail: seq<string>, k: int)
    ensures StartsWord([w] + tail, k) <==> (tail != [] && k == |w|) || StartsWord(tail, k - |w|)
  {
    var ws := [w] + tail;
    assert ws[1..] == tail && ws[0] == w;
    if StartsWord(ws, k) {
      var j :| 0 < j < |ws| && Offset(ws, j) == k;
      OffsetCons(ws, j);
      if j > 1 {
        assert Offset(tail, j - 1) == k - |w|;
      }
    }
    if tail != [] && k == |w| {
      OffsetCons(ws, 1);
      assert Offset(ws, 1) == k;
    }
    if StartsWord(tail, k - |w|) {
      var j :| 0 < j < |tail| && Offset(tail, j) == k - |w|;
      OffsetCons(ws, j + 1);
      assert Offset(ws, j + 1) == k;
    }
  }

  /** Dropping empty words leaves the boundaries inside the text where they were. */
  lemma {:induction false} DropEmptyStarts(words: seq<string>, k: int)
    requires 0 < k < |Concat(words)|
    ensures StartsWord(DropEmpty(words), k) <==> StartsWord(words, k)
    decreases |words|
  {
    var tail := words[1..];
    assert words == [words[0]] + tail;
    StartsWordCons(words[0], tail, k);
    if words[0] == [] {
      DropEmptyStarts(tail, k);
      assert !StartsWord(tail, k) ==> !(tail != [] && k == 0);
    } else {
      var d := DropEmpty(tail);
      StartsWordCons(words[0], d, k);
      if 0 < k - |words[0]| {
        DropEmptyStarts(tail, k - |words[0]|);
      } else if k - |words[0]| < 0 {
        assert !StartsWord(d, k - |words[0]|);
        assert !StartsWord(tail, k - |words[0]|);
      } else {
        assert Concat(tail) != [];
        assert Concat(d) != [];
      }
    }
  }

  /** The two characters on either side of the boundary in front of run `j`. */
  lemma BoundaryHands(s: string, runs: seq<string>, j: nat)
    requires ClassRuns(s, runs) && 0 < j < |runs|
    ensures 0 < Offset(runs, j) < |s|
    ensures s[Offset(runs, j)] == runs[j][0]
    ensures s[Offset(runs, j) - 1] == runs[j - 1][|runs[j - 1]| - 1]
    ensures ClassOf(s[Offset(runs, j) - 1]) == ClassOf(runs[j - 1][0])
    ensures Hands(runs, j - 1) <==> IsUpperAscii(s[Offset(runs, j) - 1]) && IsLowerAscii(s[Offset(runs, j)])
  {
    OffsetStep(runs, j - 1);
    ConcatAt(runs, j - 1, |runs[j - 1]| - 1);
    ConcatAt(runs, j, 0);
    assert Uniform(runs[j - 1]);
  }

  /** A boundary after step 2 is a cut. */
  lemma MovedCutIsCut(s: string, runs: seq<string>, k: nat)
    requires ClassRuns(s, runs) && 0 < k < |s|
    requires StartsWord(MoveCapitals(runs), k)
    ensures IsCut(s, k)
  {
    assert Alternating(runs);
    var moved := MoveCapitals(runs);
    var j :| 0 < j < |moved| && Offset(moved, j) == k;
    MovedOffset(runs, j);
    BoundaryHands(s, runs, j);
    var r := runs[j - 1];
    if Hands(runs, j - 1) {
      OffsetStep(runs, j - 1);
      if |r| >= 2 {
        ConcatAt(runs, j - 1, |r| - 2);
        assert Uniform(r);
      } else {
        assert Offset(runs, 0) == 0 by {
          assert runs[..0] == [];
        }
        BoundaryHands(s, runs, j - 1);
      }
    }
  }

  /** Every cut is a boundary after step 2. */
  lemma CutIsMovedCut(s: string, runs: seq<string>, k: nat)
    requires ClassRuns(s, runs) && 0 < k < |s|
    requires IsCut(s, k)
    ensures StartsWord(MoveCapitals(runs), k)
  {
    assert Alternating(runs);
    ClassRunsCut(s, runs, k);
    var j: nat;
    if ClassOf(s[k - 1]) != ClassOf(s[k]) && !(IsUpperAscii(s[k - 1]) && IsLowerAscii(s[k])) {
      j :| 0 < j < |runs| && Offset(runs, j) == k;
      BoundaryHands(s, runs, j);
    } else {
      ClassRunsCut(s, runs, k + 1);
      j :| 0 < j < |runs| && Offset(runs, j) == k + 1;
      BoundaryHands(s, runs, j);
    }
    MovedOffset(runs, j);
    assert Offset(MoveCapitals(runs), j) == k;
  }

  /**
   * The boundaries of the split, position by position: a word of
   * `Split(s)` begins at position `k` inside `s` exactly when `IsCut(s, k)`.
   * With `SplitCovers` and `Split` returning no empty word, this fixes the
   * split completely.
   */
  lemma SplitCuts(s: string, k: nat)
    requires 0 < k < |s|
    ensures StartsWord(Split(s), k) <==> IsCut(s, k)
  {
    var runs := Runs(s);
    RunsMaximal(s);
    assert ClassRuns(s, runs);
    DropEmptyStarts(MoveCapitals(runs), k);
    if IsCut(s, k) {
      CutIsMovedCut(s, runs, k);
    }
    if StartsWord(MoveCapitals(runs), k) {
      MovedCutIsCut(s, runs, k);
    }
  }
}
