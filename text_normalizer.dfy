/**
 * The canonical single-line form of a PDF text blob (the first statement of
 * `extract_pdf_info`): newlines become spaces, the text is split into its
 * whitespace-separated words, the words are joined with single spaces and the
 * result is upper-cased.
 */
module TextNormalizer {
  import opened Text

  /** No whitespace but single `' '` characters between non-whitespace. */
  predicate SingleSpaced(s: string) {
    && Stripped(s)
    && (forall k :: 0 <= k < |s| ==> IsSpace(s[k]) ==> s[k] == ' ')
    && (forall k :: 0 <= k < |s| - 1 ==> s[k] == ' ' ==> s[k + 1] != ' ')
  }

  /** The output form of the normaliser. */
  predicate Canonical(s: string) {
    SingleSpaced(s) && forall k :: 0 <= k < |s| ==> !IsLower(s[k])
  }

  /** `s.replace('\n', ' ')` */
  function ReplaceNewlines(s: string): (r: string)
    ensures |r| == |s|
    ensures forall k :: 0 <= k < |s| ==> r[k] == (if s[k] == '\n' then ' ' else s[k])
  {
    if s == [] then [] else [if s[0] == '\n' then ' ' else s[0]] + ReplaceNewlines(s[1..])
  }

  /** `s.split()`: the maximal runs of non-whitespace, in order. */
  function Split(s: string): (ws: seq<string>)
    ensures forall k :: 0 <= k < |ws| ==> IsWord(ws[k])
    decreases |s|
  {
    if s == [] then []
    else if IsSpace(s[0]) then Split(s[1..])
    else
      var n := WordLength(s);
      [s[..n]] + Split(s[n..])
  }

  /** `' '.join(ws)` */
  function Join(ws: seq<string>): string {
    if |ws| == 0 then ""
    else if |ws| == 1 then ws[0]
    else ws[0] + " " + Join(ws[1..])
  }

  /** `' '.join(text.replace('\n', ' ').split()).upper()` */
  function Normalize(text: string): (r: string)
    ensures '\n' !in r
    ensures Stripped(r)
    ensures forall k :: 0 <= k < |r| - 1 ==> !(r[k] == ' ' && r[k + 1] == ' ')
    ensures forall k :: 0 <= k < |r| ==> !IsLower(r[k])
    ensures Canonical(r)
  {
    var words := Split(ReplaceNewlines(text));
    JoinSingleSpaced(words);
    UpperKeepsSingleSpaced(Join(words));
    Upper(Join(words))
  }

  lemma {:induction false} JoinSingleSpaced(ws: seq<string>)
    requires forall k :: 0 <= k < |ws| ==> IsWord(ws[k])
    ensures SingleSpaced(Join(ws))
    ensures |ws| > 0 ==> Join(ws) != []
    decreases |ws|
  {
    if |ws| <= 1 {
    } else {
      var w, rest := ws[0], Join(ws[1..]);
      JoinSingleSpaced(ws[1..]);
      var j := w + " " + rest;
      assert Join(ws) == j;
      assert rest != [];
      assert j[..|w|] == w && j[|w|] == ' ' && j[|w| + 1..] == rest;
      forall k | 0 <= k < |j| && IsSpace(j[k]) ensures j[k] == ' ' {
        if k > |w| { assert j[k] == rest[k - |w| - 1]; }
      }
      forall k | 0 <= k < |j| - 1 && j[k] == ' ' ensures j[k + 1] != ' ' {
        if k > |w| {
          assert j[k] == rest[k - |w| - 1] && j[k + 1] == rest[k - |w|];
        }
      }
    }
  }

  lemma UpperKeepsSingleSpaced(s: string)
    requires SingleSpaced(s)
    ensures Canonical(Upper(s))
  {
    var u := Upper(s);
    forall k | 0 <= k < |u| ensures (u[k] == ' ') == (s[k] == ' ') && (IsSpace(u[k]) == IsSpace(s[k])) {
    }
  }

  /** Splitting single-spaced text and joining the words again gives the text back. */
  lemma {:induction false} SplitJoinSingleSpaced(s: string)
    requires SingleSpaced(s)
    ensures Join(Split(s)) == s
    decreases |s|
  {
    if s != [] {
      var n := WordLength(s);
      assert !IsSpace(s[0]) && n > 0;
      assert Split(s) == [s[..n]] + Split(s[n..]);
      if n == |s| {
        assert s[n..] == [] && s[..n] == s;
        assert Split(s[n..]) == [];
        assert Split(s) == [s];
      } else {
        var tail := s[n + 1..];
        SingleSpacedRest(s, n);
        assert Split(s[n..]) == Split(tail) by {
          assert s[n..][1..] == tail;
        }
        SplitJoinSingleSpaced(tail);
        JoinAfterWord(s[..n], Split(tail), tail);
        assert s == s[..n] + " " + tail;
      }
    }
  }

  /** What follows the first word of single-spaced text: one space, then
      single-spaced text again. */
  lemma SingleSpacedRest(s: string, n: nat)
    requires SingleSpaced(s) && s != [] && n == WordLength(s) && n < |s|
    ensures s[n] == ' ' && n + 1 < |s|
    ensures SingleSpaced(s[n + 1..]) && !IsSpace(s[n + 1])
  {
    var tail := s[n + 1..];
    assert forall k :: 0 <= k < |tail| ==> tail[k] == s[n + 1 + k];
  }

  lemma JoinAfterWord(w: string, rest: seq<string>, tail: string)
    requires tail != [] && !IsSpace(tail[0]) && Join(rest) == tail
    ensures Join([w] + rest) == w + " " + tail
  {
    assert rest != [];
    var ws := [w] + rest;
    assert ws[0] == w && ws[1..] == rest;
  }

  /** Normalising text that is already normalised changes nothing. */
  lemma NormalizeIdempotent(text: string)
    ensures Normalize(Normalize(text)) == Normalize(text)
  {
    var r := Normalize(text);
    assert ReplaceNewlines(r) == r;
    SplitJoinSingleSpaced(r);
    UpperOfUpper(r);
  }

  /** Canonical text is its own normal form. */
  lemma NormalizeCanonical(s: string)
    requires Canonical(s)
    ensures Normalize(s) == s
  {
    assert ReplaceNewlines(s) == s;
    SplitJoinSingleSpaced(s);
    UpperOfUpper(s);
  }
  /** The words, each upper-cased. */
  function UpperWords(ws: seq<string>): (us: seq<string>)
    ensures |us| == |ws|
    ensures forall k :: 0 <= k < |ws| ==> us[k] == Upper(ws[k])
  {
    if ws == [] then [] else [Upper(ws[0])] + UpperWords(ws[1..])
  }

  /** Nothing but spacing and case changes: the normalised text holds exactly
      the words of the input, in order, each upper-cased. */
  lemma NormalizeKeepsWords(text: string)
    ensures Split(Normalize(text)) == UpperWords(Split(text))
  {
    var ws := Split(ReplaceNewlines(text));
    SplitReplaceNewlines(text);
    UpperJoin(ws);
    var us := UpperWords(ws);
    forall k | 0 <= k < |us| ensures IsWord(us[k]) {
      assert us[k] == Upper(ws[k]);
    }
    SplitJoinWords(us);
  }

  lemma UpperConcat(a: string, b: string)
    ensures Upper(a + b) == Upper(a) + Upper(b)
  {
    var l, r := Upper(a + b), Upper(a) + Upper(b);
    assert |l| == |r|;
    forall k | 0 <= k < |l| ensures l[k] == r[k] {
      if k < |a| {
        assert (a + b)[k] == a[k];
      } else {
        assert (a + b)[k] == b[k - |a|];
      }
    }
  }

  lemma {:induction false} UpperJoin(ws: seq<string>)
    ensures Upper(Join(ws)) == Join(UpperWords(ws))
    decreases |ws|
  {
    if |ws| >= 2 {
      UpperJoin(ws[1..]);
      UpperConcat(ws[0] + " ", Join(ws[1..]));
      UpperConcat(ws[0], " ");
      assert UpperWords(ws)[1..] == UpperWords(ws[1..]);
    }
  }

  /** Joining words with single spaces and splitting again gives the words back. */
  lemma {:induction false} SplitJoinWords(ws: seq<string>)
    requires forall k :: 0 <= k < |ws| ==> IsWord(ws[k])
    ensures Split(Join(ws)) == ws
    decreases |ws|
  {
    if |ws| == 1 {
      var w := ws[0];
      assert WordLength(w) == |w| by { WordLengthOfWord(w, []); }
      assert w[..|w|] == w && w[|w|..] == [];
      assert Split(w[|w|..]) == [];
    } else if |ws| >= 2 {
      var w, rest := ws[0], Join(ws[1..]);
      var j := w + " " + rest;
      assert Join(ws) == j;
      assert j == w + (" " + rest);
      WordLengthOfWord(w, " " + rest);
      assert j[..|w|] == w && j[|w|..] == " " + rest;
      assert (" " + rest)[1..] == rest;
      assert Split(" " + rest) == Split(rest);
      SplitJoinWords(ws[1..]);
      assert Split(j) == [w] + ws[1..];
    }
  }

  /** Turning newlines into spaces does not change the words. */
  lemma {:induction false} SplitReplaceNewlines(s: string)
    ensures Split(ReplaceNewlines(s)) == Split(s)
    decreases |s|
  {
    var r := ReplaceNewlines(s);
    if s != [] {
      assert r[1..] == ReplaceNewlines(s[1..]);
      if IsSpace(s[0]) {
        SplitReplaceNewlines(s[1..]);
      } else {
        var n := WordLength(s);
        WordLengthReplaceNewlines(s);
        assert r[..n] == s[..n];
        ReplaceNewlinesSuffix(s, n);
        SplitReplaceNewlines(s[n..]);
      }
    }
  }

  lemma {:induction false} WordLengthReplaceNewlines(s: string)
    ensures WordLength(ReplaceNewlines(s)) == WordLength(s)
    decreases |s|
  {
    if s != [] {
      assert ReplaceNewlines(s)[1..] == ReplaceNewlines(s[1..]);
      WordLengthReplaceNewlines(s[1..]);
    }
  }

  lemma ReplaceNewlinesSuffix(s: string, n: nat)
    requires n <= |s|
    ensures ReplaceNewlines(s)[n..] == ReplaceNewlines(s[n..])
  {
  }
}
