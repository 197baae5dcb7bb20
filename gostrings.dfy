/**
 * The parts of Go's `strings` package that deriving an environment-variable
 * name relies on: `ToUpper` and `Join`, on ASCII letters.
 */
module GoStrings {

  predicate IsLowerAscii(c: char) { 'a' <= c <= 'z' }

  predicate IsUpperAscii(c: char) { 'A' <= c <= 'Z' }

  /** `unicode.ToUpper` on one character: a lower-case ASCII letter becomes its capital. */
  function UpperChar(c: char): (u: char)
    ensures !IsLowerAscii(u)
    ensures IsLowerAscii(c) ==> IsUpperAscii(u) && u as int + 32 == c as int
    ensures !IsLowerAscii(c) ==> u == c
  {
    if IsLowerAscii(c) then (c as int - 32) as char else c
  }

  /** `strings.ToUpper`: every character upper-cased, one for one. */
  function ToUpper(s: string): (r: string)
    ensures |r| == |s|
    ensures forall i :: 0 <= i < |s| ==> r[i] == UpperChar(s[i])
    ensures forall i :: 0 <= i < |r| ==> !IsLowerAscii(r[i])
  {
    if s == [] then [] else [UpperChar(s[0])] + ToUpper(s[1..])
  }

  /** Upper-casing an upper-cased string changes nothing. */
  lemma ToUpperIdempotent(s: string)
    ensures ToUpper(ToUpper(s)) == ToUpper(s)
  {
  }

  /** `strings.Join`: the words in order with `sep` between each two of them. */
  function Join(words: seq<string>, sep: string): (r: string)
    ensures |words| == 0 ==> r == ""
    ensures |words| > 0 ==> |r| == |Concat(words)| + (|words| - 1) * |sep|
    ensures sep == "" ==> r == Concat(words)
    decreases |words|
  {
    if |words| == 0 then ""
    else if |words| == 1 then
      assert Concat(words) == words[0] + Concat([]);
      words[0]
    else words[0] + sep + Join(words[1..], sep)
  }

  /** Each word after the first, with the separator in front of it. */
  function Prefixed(words: seq<string>, sep: string): (r: seq<string>)
    ensures |r| == |words|
    ensures forall i :: 0 <= i < |words| ==> r[i] == sep + words[i]
  {
    seq(|words|, i requires 0 <= i < |words| => sep + words[i])
  }

  /**
   * Where the separators go: `Join` is the first word followed by each
   * further word with one separator in front of it.
   */
  lemma {:induction false} JoinSeparated(words: seq<string>, sep: string)
    requires |words| > 0
    ensures Join(words, sep) == words[0] + Concat(Prefixed(words[1..], sep))
    decreases |words|
  {
    var tail := words[1..];
    if |words| == 1 {
      assert Prefixed(tail, sep) == [];
    } else {
      JoinSeparated(tail, sep);
      var pre := Prefixed(tail, sep);
      assert pre[1..] == Prefixed(tail[1..], sep);
      assert Concat(pre) == sep + tail[0] + Concat(pre[1..]);
    }
  }

  /** Each word upper-cased, in order. */
  function UpperWords(words: seq<string>): (r: seq<string>)
    ensures |r| == |words|
    ensures forall i :: 0 <= i < |words| ==> r[i] == ToUpper(words[i])
  {
    seq(|words|, i requires 0 <= i < |words| => ToUpper(words[i]))
  }

  /** Upper-casing a joined string upper-cases each word, when the separator has no lower-case letter. */
  lemma {:induction false} ToUpperJoin(words: seq<string>, sep: string)
    requires ToUpper(sep) == sep
    ensures ToUpper(Join(words, sep)) == Join(UpperWords(words), sep)
    decreases |words|
  {
    var up := UpperWords(words);
    if |words| > 1 {
      ToUpperJoin(words[1..], sep);
      assert UpperWords(words[1..]) == up[1..];
      ToUpperAppend(words[0] + sep, Join(words[1..], sep));
      ToUpperAppend(words[0], sep);
    }
  }

  lemma JoinPair(a: string, b: string, sep: string)
    ensures Join([a, b], sep) == a + sep + b
  {
    assert [a, b][1..] == [b];
  }

  /** The words written one after the other, with nothing between them. */
  function Concat(words: seq<string>): string
    decreases |words|
  {
    if words == [] then "" else words[0] + Concat(words[1..])
  }

  /** `s` with every occurrence of `c` taken out. */
  function Remove(s: string, c: char): (r: string)
    ensures c !in r
    ensures c !in s ==> r == s
  {
    if s == [] then ""
    else (if s[0] == c then "" else [s[0]]) + Remove(s[1..], c)
  }

  lemma {:induction false} ConcatAppend(a: seq<string>, b: seq<string>)
    ensures Concat(a + b) == Concat(a) + Concat(b)
  {
    if a == [] {
      assert a + b == b;
    } else {
      assert (a + b)[1..] == a[1..] + b;
      ConcatAppend(a[1..], b);
    }
  }

  lemma RemoveCons(x: char, s: string, c: char)
    ensures Remove([x] + s, c) == (if x == c then "" else [x]) + Remove(s, c)
  {
    assert ([x] + s)[1..] == s;
  }

  lemma {:induction false} RemoveAppend(s: string, t: string, c: char)
    ensures Remove(s + t, c) == Remove(s, c) + Remove(t, c)
  {
    if s == [] {
      assert s + t == t;
    } else {
      var x, rest := s[0], s[1..];
      assert s == [x] + rest && s + t == [x] + (rest + t);
      RemoveCons(x, rest + t, c);
      RemoveCons(x, rest, c);
      RemoveAppend(rest, t, c);
      AppendAssoc(if x == c then "" else [x], Remove(rest, c), Remove(t, c));
    }
  }

  lemma AppendAssoc(a: string, b: string, c: string)
    ensures a + (b + c) == (a + b) + c
  {
  }

  /** Every character of a word is a character of the words' concatenation. */
  lemma {:induction false} InConcat(words: seq<string>, i: nat, c: char)
    requires i < |words| && c in words[i]
    ensures c in Concat(words)
  {
    if i > 0 {
      InConcat(words[1..], i - 1, c);
    }
  }

  /**
   * Joining with a separator that occurs in no word, then removing the
   * separator, gives the plain concatenation back.
   */
  lemma {:induction false} RemoveJoin(words: seq<string>, c: char)
    requires forall i :: 0 <= i < |words| ==> c !in words[i]
    ensures Remove(Join(words, [c]), c) == Concat(words)
    decreases |words|
  {
    if |words| == 0 {
    } else if |words| == 1 {
      assert Concat(words) == words[0] + Concat(words[1..]);
    } else {
      RemoveJoin(words[1..], c);
      calc {
        Remove(Join(words, [c]), c);
        Remove(words[0] + [c] + Join(words[1..], [c]), c);
        { RemoveAppend(words[0] + [c], Join(words[1..], [c]), c);
          RemoveAppend(words[0], [c], c); }
        words[0] + Concat(words[1..]);
      }
    }
  }

  /** Upper-casing distributes over removing a character that is not a letter. */
  lemma {:induction false} ToUpperRemove(s: string, c: char)
    requires !IsLowerAscii(c) && !IsUpperAscii(c)
    ensures ToUpper(Remove(s, c)) == Remove(ToUpper(s), c)
  {
    if s != [] {
      ToUpperRemove(s[1..], c);
      assert ToUpper(s)[1..] == ToUpper(s[1..]);
      var head := if s[0] == c then "" else [s[0]];
      calc {
        ToUpper(Remove(s, c));
        ToUpper(head + Remove(s[1..], c));
        { ToUpperAppend(head, Remove(s[1..], c)); }
        ToUpper(head) + ToUpper(Remove(s[1..], c));
      }
      assert UpperChar(s[0]) == c <==> s[0] == c;
    }
  }

  lemma ToUpperAppend(a: string, b: string)
    ensures ToUpper(a + b) == ToUpper(a) + ToUpper(b)
  {
    assert forall i :: 0 <= i < |a + b| ==> ToUpper(a + b)[i] == (ToUpper(a) + ToUpper(b))[i];
  }
}
