/**
 * The page loop of `parse_pdf_content`: the page texts are concatenated, one
 * newline after each, and the charge code is taken from the first page whose
 * text holds `Charge code:` followed by three groups of three or four digits.
 * Page texts come from the PDF reader, which is not modelled: a page whose
 * text the reader cannot extract is `None`.
 */
module ChargeCode {
  import opened Wrappers
  import opened Text

  const ChargeAnchor: string := "Charge code:"

  /** `page.extract_text() or ""` */
  function PageText(page: Option<string>): string {
    if page.Some? then page.value else ""
  }

  /** `n` digits start at `p`. */
  predicate DigitsAt(s: string, p: nat, n: nat) {
    p + n <= |s| && forall k :: p <= k < p + n ==> IsDigit(s[k])
  }

  /** Where `\d{3,4}(\s*\d{3,4}){count - 1}` matched at `p` ends, with the
      regex engine's order of trying: four digits before three, the earlier
      groups before the later ones. Nothing follows the groups in the pattern,
      so the first success in that order is the match. The `\s*` before a
      group takes every whitespace character: giving one back would leave a
      whitespace character where a digit is needed. */
  function Groups(s: string, p: nat, count: nat): (e: Option<nat>)
    requires 1 <= count
    ensures e.Some? ==> p + 3 <= e.value <= |s|
    decreases count, 1
  {
    match GroupOfWidth(s, p, count, 4)
    case Some(e) => Some(e)
    case None => GroupOfWidth(s, p, count, 3)
  }

  /** `Groups`, with the first group exactly `n` digits wide. */
  function GroupOfWidth(s: string, p: nat, count: nat, n: nat): (e: Option<nat>)
    requires 1 <= count
    ensures e.Some? ==> p + n <= e.value <= |s|
    decreases count, 0
  {
    if !DigitsAt(s, p, n) then None
    else if count == 1 then Some(p + n)
    else Groups(s, SkipSpaces(s, p + n), count - 1)
  }

  /** The number of digits in `s`. */
  function DigitCount(s: string): nat {
    if s == [] then 0 else (if IsDigit(s[0]) then 1 else 0) + DigitCount(s[1..])
  }

  /** The text `\d{3,4}(\s*\d{3,4}){count - 1}` matches in full: a run of three
      or four digits, then, when more groups follow, whitespace and the other
      groups. A `\s*` between two groups covers the whole run of whitespace,
      since the next group begins with a digit. */
  predicate GroupsText(g: string, count: nat)
    decreases count, 1
  {
    1 <= count && (GroupText(g, count, 3) || GroupText(g, count, 4))
  }

  /** `GroupsText`, with the first group exactly `n` digits wide. */
  predicate GroupText(g: string, count: nat, n: nat)
    decreases count, 0
  {
    && 1 <= count && n <= |g|
    && (forall k :: 0 <= k < n ==> IsDigit(g[k]))
    && (if count == 1 then |g| == n else GroupsText(g[SkipSpaces(g, n)..], count - 1))
  }

  /** The characters of a match of the groups: digits and whitespace, a digit
      at either end, and between `3 * count` and `4 * count` digits in all. */
  predicate GroupsChars(g: string, count: nat) {
    && g != []
    && IsDigit(g[0]) && IsDigit(g[|g| - 1])
    && (forall k :: 0 <= k < |g| ==> IsDigit(g[k]) || IsSpace(g[k]))
    && 3 * count <= DigitCount(g) <= 4 * count
  }

  /** The match of the groups is text the expression matches in full: each
      group three or four digits, whitespace only between groups. */
  lemma {:induction false} GroupsShape(s: string, p: nat, count: nat)
    requires 1 <= count
    ensures Groups(s, p, count).Some? ==>
      var e := Groups(s, p, count).value;
      p < e <= |s| && GroupsText(s[p..e], count) && GroupsChars(s[p..e], count)
    decreases count, 1
  {
    if GroupOfWidth(s, p, count, 4).Some? {
      GroupOfWidthShape(s, p, count, 4);
    } else {
      GroupOfWidthShape(s, p, count, 3);
    }
  }

  lemma {:induction false} GroupOfWidthShape(s: string, p: nat, count: nat, n: nat)
    requires 1 <= count && 3 <= n <= 4
    ensures GroupOfWidth(s, p, count, n).Some? ==>
      var e := GroupOfWidth(s, p, count, n).value;
      p < e <= |s| && GroupText(s[p..e], count, n) && GroupsChars(s[p..e], count)
    decreases count, 0
  {
    if DigitsAt(s, p, n) {
      if count == 1 {
        OneGroupShape(s, p, n);
      } else {
        var a := SkipSpaces(s, p + n);
        GroupsShape(s, a, count - 1);
        if Groups(s, a, count - 1).Some? {
          MoreGroupsShape(s, p, n, a, Groups(s, a, count - 1).value, count);
        }
      }
    }
  }

  lemma OneGroupShape(s: string, p: nat, n: nat)
    requires 3 <= n <= 4 && DigitsAt(s, p, n)
    ensures GroupText(s[p..p + n], 1, n) && GroupsChars(s[p..p + n], 1)
  {
    var head := s[p..p + n];
    assert forall k :: 0 <= k < n ==> head[k] == s[p + k];
    AllDigitsCount(head);
  }

  lemma MoreGroupsShape(s: string, p: nat, n: nat, a: nat, e: nat, count: nat)
    requires 2 <= count && 3 <= n <= 4 && DigitsAt(s, p, n)
    requires a == SkipSpaces(s, p + n) && a < e <= |s|
    requires GroupsText(s[a..e], count - 1) && GroupsChars(s[a..e], count - 1)
    ensures GroupText(s[p..e], count, n) && GroupsChars(s[p..e], count)
  {
    var head := s[p..p + n];
    assert forall k :: 0 <= k < n ==> head[k] == s[p + k];
    var sep := s[p + n..a];
    assert forall k :: 0 <= k < |sep| ==> sep[k] == s[p + n + k];
    assert s[p..e] == head + sep + s[a..e];
    GroupsCharsJoin(head, sep, s[a..e], count);
    assert s[a..e][0] == s[a];
    GroupTextJoin(s, p, n, a, e, count);
  }

  /** A group of `n` digits, whitespace, then `count - 1` groups. */
  lemma GroupTextJoin(s: string, p: nat, n: nat, a: nat, e: nat, count: nat)
    requires 2 <= count && DigitsAt(s, p, n)
    requires p + n <= a < e <= |s| && !IsSpace(s[a])
    requires forall k :: p + n <= k < a ==> IsSpace(s[k])
    requires GroupsText(s[a..e], count - 1)
    ensures GroupText(s[p..e], count, n)
  {
    var g := s[p..e];
    assert forall k :: 0 <= k < |g| ==> g[k] == s[p + k];
    SkipSpacesTo(g, n, a - p);
    assert g[a - p..] == s[a..e];
  }

  /** One more group in front of a match of the groups, past whitespace. */
  lemma GroupsCharsJoin(head: string, sep: string, rest: string, count: nat)
    requires 3 <= |head| <= 4 && forall k :: 0 <= k < |head| ==> IsDigit(head[k])
    requires forall k :: 0 <= k < |sep| ==> IsSpace(sep[k])
    requires 2 <= count && GroupsChars(rest, count - 1)
    ensures GroupsChars(head + sep + rest, count)
  {
    var g := head + sep + rest;
    AllDigitsCount(head);
    NoDigitsCount(sep);
    DigitCountConcat(head, sep);
    DigitCountConcat(head + sep, rest);
    assert g[0] == head[0];
    assert g[|g| - 1] == rest[|rest| - 1];
    forall k | 0 <= k < |g| ensures IsDigit(g[k]) || IsSpace(g[k]) {
      if k < |head| {
        assert g[k] == head[k];
      } else if k < |head| + |sep| {
        assert g[k] == sep[k - |head|];
      } else {
        assert g[k] == rest[k - |head| - |sep|];
      }
    }
  }

  lemma {:induction false} DigitCountConcat(a: string, b: string)
    ensures DigitCount(a + b) == DigitCount(a) + DigitCount(b)
    decreases |a|
  {
    if a != [] {
      assert (a + b)[0] == a[0] && (a + b)[1..] == a[1..] + b;
      DigitCountConcat(a[1..], b);
    } else {
      assert a + b == b;
    }
  }

  lemma {:induction false} AllDigitsCount(s: string)
    requires forall k :: 0 <= k < |s| ==> IsDigit(s[k])
    ensures DigitCount(s) == |s|
    decreases |s|
  {
    if s != [] {
      AllDigitsCount(s[1..]);
    }
  }

  lemma {:induction false} NoDigitsCount(s: string)
    requires forall k :: 0 <= k < |s| ==> IsSpace(s[k])
    ensures DigitCount(s) == 0
    decreases |s|
  {
    if s != [] {
      assert !IsDigit(s[0]);
      NoDigitsCount(s[1..]);
    }
  }

  /** Every text the groups' expression matches in full is found by
      `Groups`: when `s[p..e]` is such a text, `Groups` succeeds at `p`
      (possibly with a longer match, as the engine tries four digits first). */
  lemma {:induction false} GroupsComplete(s: string, p: nat, e: nat, count: nat)
    requires p <= e <= |s| && GroupsText(s[p..e], count)
    ensures Groups(s, p, count).Some?
    decreases count, 1
  {
    if GroupText(s[p..e], count, 4) {
      GroupOfWidthComplete(s, p, e, count, 4);
    } else {
      GroupOfWidthComplete(s, p, e, count, 3);
    }
  }

  lemma {:induction false} GroupOfWidthComplete(s: string, p: nat, e: nat, count: nat, n: nat)
    requires p <= e <= |s| && GroupText(s[p..e], count, n)
    ensures GroupOfWidth(s, p, count, n).Some?
    decreases count, 0
  {
    GroupTextDigits(s, p, e, count, n);
    if count > 1 {
      var q := GroupTextNext(s, p, e, count, n);
      GroupsComplete(s, q, e, count - 1);
    }
  }

  lemma GroupTextDigits(s: string, p: nat, e: nat, count: nat, n: nat)
    requires p <= e <= |s| && GroupText(s[p..e], count, n)
    ensures DigitsAt(s, p, n)
  {
    var g := s[p..e];
    assert forall k :: 0 <= k < |g| ==> g[k] == s[p + k];
  }

  /** Where the rest of a multi-group match begins in `s`. */
  lemma GroupTextNext(s: string, p: nat, e: nat, count: nat, n: nat) returns (q: nat)
    requires p <= e <= |s| && GroupText(s[p..e], count, n) && 1 < count
    ensures q == SkipSpaces(s, p + n) && q <= e && GroupsText(s[q..e], count - 1)
  {
    var g := s[p..e];
    var r := SkipSpaces(g, n);
    GroupsTextStartsWithDigit(g[r..], count - 1);
    assert g[r] == g[r..][0];
    assert forall k :: n <= k < r ==> g[k] == s[p + k];
    SkipSpacesTo(s, p + n, p + r);
    assert g[r..] == s[p + r..e];
    q := p + r;
  }

  lemma GroupsTextStartsWithDigit(g: string, count: nat)
    requires GroupsText(g, count)
    ensures g != [] && IsDigit(g[0])
  {
    if GroupText(g, count, 3) {
      assert IsDigit(g[0]);
    } else {
      assert IsDigit(g[0]);
    }
  }

  /** `Charge code:` at `i`, followed past any whitespace by the groups. */
  predicate CodeAt(s: string, i: nat) {
    OccursAt(s, ChargeAnchor, i) && Groups(s, SkipSpaces(s, i + |ChargeAnchor|), 3).Some?
  }

  /** The group matched by `re.search(r"Charge code:\s*(\d{3,4}\s*\d{3,4}\s*\d{3,4})", s)`,
      trying the start positions from `from` onwards in order. */
  function SearchCode(s: string, from: nat): Option<string>
    decreases |s| - from
  {
    if from + |ChargeAnchor| > |s| then None
    else if CodeAt(s, from) then
      var a := SkipSpaces(s, from + |ChargeAnchor|);
      Some(s[a..Groups(s, a, 3).value])
    else SearchCode(s, from + 1)
  }

  /** The group found is text the groups' expression matches in full. */
  lemma {:induction false} SearchCodeShape(s: string, from: nat)
    ensures SearchCode(s, from).Some? ==>
      GroupsText(SearchCode(s, from).value, 3) && GroupsChars(SearchCode(s, from).value, 3)
    decreases |s| - from
  {
    if from + |ChargeAnchor| <= |s| {
      if CodeAt(s, from) {
        GroupsShape(s, SkipSpaces(s, from + |ChargeAnchor|), 3);
      } else {
        SearchCodeShape(s, from + 1);
      }
    }
  }

  /** A charge code is found exactly when some anchor at or after `from` is
      followed, past any whitespace, by the three groups. */
  lemma {:induction false} SearchCodePresent(s: string, from: nat)
    ensures SearchCode(s, from).Some? <==> exists i: nat :: from <= i && CodeAt(s, i)
    decreases |s| - from
  {
    if from + |ChargeAnchor| > |s| {
      forall i: nat | from <= i ensures !CodeAt(s, i) {
      }
    } else if !CodeAt(s, from) {
      SearchCodePresent(s, from + 1);
      if i: nat :| from <= i && CodeAt(s, i) {
        assert i != from;
      }
    }
  }

  /** The code found is the group after the first anchor, at or after `from`,
      that is followed by one. */
  lemma {:induction false} SearchCodeAt(s: string, from: nat, i: nat)
    requires from <= i && CodeAt(s, i)
    requires forall h: nat :: from <= h < i ==> !CodeAt(s, h)
    ensures var a := SkipSpaces(s, i + |ChargeAnchor|);
      SearchCode(s, from) == Some(s[a..Groups(s, a, 3).value])
    decreases i - from
  {
    if from < i {
      assert !CodeAt(s, from);
      SearchCodeAt(s, from + 1, i);
    }
  }

  /** A `Charge code:` followed, past any whitespace, by text the expression
      matches is always found. */
  lemma SearchCodeFinds(s: string, i: nat, e: nat)
    requires OccursAt(s, ChargeAnchor, i)
    requires SkipSpaces(s, i + |ChargeAnchor|) <= e <= |s|
    requires GroupsText(s[SkipSpaces(s, i + |ChargeAnchor|)..e], 3)
    ensures SearchCode(s, 0).Some?
  {
    GroupsComplete(s, SkipSpaces(s, i + |ChargeAnchor|), e, 3);
    assert CodeAt(s, i);
    SearchCodePresent(s, 0);
  }

  /** `s.replace(" ", "")`: only the space character itself is removed. */
  function RemoveSpaces(s: string): (r: string)
    ensures ' ' !in r
  {
    if s == [] then []
    else if s[0] == ' ' then RemoveSpaces(s[1..])
    else [s[0]] + RemoveSpaces(s[1..])
  }

  /** Removing spaces keeps every digit. */
  lemma {:induction false} RemoveSpacesDigits(s: string)
    ensures DigitCount(RemoveSpaces(s)) == DigitCount(s)
    decreases |s|
  {
    if s != [] {
      RemoveSpacesDigits(s[1..]);
      if s[0] != ' ' {
        assert ([s[0]] + RemoveSpaces(s[1..]))[1..] == RemoveSpaces(s[1..]);
      }
    }
  }

  /** Exactly the spaces are removed: every other character stays. */
  lemma {:induction false} RemoveSpacesKeeps(s: string)
    ensures forall c :: c in RemoveSpaces(s) <==> c in s && c != ' '
    decreases |s|
  {
    if s != [] {
      RemoveSpacesKeeps(s[1..]);
      assert forall c :: c in s <==> c == s[0] || c in s[1..];
    }
  }

  /** Text without spaces is left as it is. */
  lemma {:induction false} RemoveSpacesNoSpace(s: string)
    requires ' ' !in s
    ensures RemoveSpaces(s) == s
    decreases |s|
  {
    if s != [] {
      assert s[0] in s;
      assert forall c :: c in s[1..] ==> c in s;
      RemoveSpacesNoSpace(s[1..]);
    }
  }

  /** Spaces are removed piece by piece, keeping the order of everything
      else: with `RemoveSpacesChar` this fixes the result. */
  lemma {:induction false} RemoveSpacesConcat(x: string, y: string)
    ensures RemoveSpaces(x + y) == RemoveSpaces(x) + RemoveSpaces(y)
    decreases |x|
  {
    if x == [] {
      assert x + y == y;
    } else {
      assert (x + y)[0] == x[0] && (x + y)[1..] == x[1..] + y;
      RemoveSpacesConcat(x[1..], y);
    }
  }

  /** On one character: the space goes, anything else stays. */
  lemma RemoveSpacesChar(c: char)
    ensures RemoveSpaces([c]) == (if c == ' ' then [] else [c])
  {
    assert [c][1..] == [];
  }

  /** The charge code a page's text yields, or `""` when it has none. */
  function PageCode(text: string): (code: string)
    ensures code != [] <==> SearchCode(text, 0).Some?
    ensures SearchCode(text, 0).Some? ==> code == RemoveSpaces(SearchCode(text, 0).value)
    ensures code != [] ==> ' ' !in code && 9 <= DigitCount(code) <= 12
    ensures forall c :: c in code ==> IsDigit(c) || (IsSpace(c) && c != ' ')
  {
    SearchCodeShape(text, 0);
    match SearchCode(text, 0)
    case None => ""
    case Some(g) =>
      assert g[0] in g;
      RemoveSpacesKeeps(g);
      RemoveSpacesDigits(g);
      RemoveSpaces(g)
  }

  /** A group of exactly three digits leaves the engine no four-digit choice. */
  lemma ThreeDigitGroup(s: string, p: nat, count: nat)
    requires 1 <= count && DigitsAt(s, p, 3)
    requires p + 3 == |s| || !IsDigit(s[p + 3])
    ensures Groups(s, p, count) == GroupOfWidth(s, p, count, 3)
  {
    assert !DigitsAt(s, p, 4);
  }

  lemma RemoveSpacesGroups(d1: string, d2: string, d3: string)
    requires ' ' !in d1 && ' ' !in d2 && ' ' !in d3
    ensures RemoveSpaces(d1 + " " + d2 + " " + d3) == d1 + d2 + d3
  {
    var sp := " ";
    RemoveSpacesChar(' ');
    assert RemoveSpaces(sp) == [];
    RemoveSpacesNoSpace(d1);
    RemoveSpacesNoSpace(d2);
    RemoveSpacesNoSpace(d3);
    RemoveSpacesConcat(d1, sp);
    assert RemoveSpaces(d1 + sp) == d1;
    RemoveSpacesConcat(d1 + sp, d2);
    assert RemoveSpaces(d1 + sp + d2) == d1 + d2;
    RemoveSpacesConcat(d1 + sp + d2, sp);
    assert RemoveSpaces(d1 + sp + d2 + sp) == d1 + d2;
    RemoveSpacesConcat(d1 + sp + d2 + sp, d3);
  }

  /** A page reading `Charge code: 123 456 789`, for any three groups of three
      digits, yields the code `123456789`. */
  lemma ThreeGroupsCode(d1: string, d2: string, d3: string)
    requires |d1| == 3 && |d2| == 3 && |d3| == 3
    requires forall k :: 0 <= k < 3 ==> IsDigit(d1[k]) && IsDigit(d2[k]) && IsDigit(d3[k])
    ensures PageCode(ChargeAnchor + " " + d1 + " " + d2 + " " + d3) == d1 + d2 + d3
  {
    ThreeGroupsFound(d1, d2, d3);
    assert forall c :: c in d1 ==> IsDigit(c);
    assert forall c :: c in d2 ==> IsDigit(c);
    assert forall c :: c in d3 ==> IsDigit(c);
    RemoveSpacesGroups(d1, d2, d3);
  }

  /** The search on such a page finds the three groups with the spaces
      between them. */
  lemma ThreeGroupsFound(d1: string, d2: string, d3: string)
    requires |d1| == 3 && |d2| == 3 && |d3| == 3
    requires forall k :: 0 <= k < 3 ==> IsDigit(d1[k]) && IsDigit(d2[k]) && IsDigit(d3[k])
    ensures var s := ChargeAnchor + " " + d1 + " " + d2 + " " + d3;
      SearchCode(s, 0).Some? && SearchCode(s, 0).value == d1 + " " + d2 + " " + d3
  {
    var s := ChargeAnchor + " " + d1 + " " + d2 + " " + d3;
    ThreeGroupsLayout(d1, d2, d3);
    SkipSpacesTo(s, 12, 13);
    SkipSpacesTo(s, 16, 17);
    SkipSpacesTo(s, 20, 21);
    ThreeDigitGroup(s, 21, 1);
    ThreeDigitGroup(s, 17, 2);
    ThreeDigitGroup(s, 13, 3);
    assert Groups(s, 13, 3) == Some(24);
    assert CodeAt(s, 0);
    SearchCodeAt(s, 0, 0);
  }

  lemma ThreeGroupsLayout(d1: string, d2: string, d3: string)
    requires |d1| == 3 && |d2| == 3 && |d3| == 3
    requires forall k :: 0 <= k < 3 ==> IsDigit(d1[k]) && IsDigit(d2[k]) && IsDigit(d3[k])
    ensures var s := ChargeAnchor + " " + d1 + " " + d2 + " " + d3;
      && |s| == 24 && OccursAt(s, ChargeAnchor, 0)
      && s[12] == ' ' && s[16] == ' ' && s[20] == ' '
      && DigitsAt(s, 13, 3) && DigitsAt(s, 17, 3) && DigitsAt(s, 21, 3)
      && s[13..24] == d1 + " " + d2 + " " + d3
  {
    var t := d1 + " " + d2 + " " + d3;
    var s := ChargeAnchor + " " + d1 + " " + d2 + " " + d3;
    GroupsLayout(d1, d2, d3);
    assert s == ChargeAnchor + " " + t;
    assert s[..12] == ChargeAnchor;
    assert s[13..] == t;
  }

  lemma GroupsLayout(d1: string, d2: string, d3: string)
    requires |d1| == 3 && |d2| == 3 && |d3| == 3
    ensures var t := d1 + " " + d2 + " " + d3;
      && |t| == 11 && t[3] == ' ' && t[7] == ' '
      && forall k :: 0 <= k < 3 ==> t[k] == d1[k] && t[4 + k] == d2[k] && t[8 + k] == d3[k]
  {
  }

  /** The code of one page as the reader returns it. */
  function CodeOfPage(page: Option<string>): (code: string)
    ensures code != [] ==> ' ' !in code && 9 <= DigitCount(code) <= 12
    ensures forall c :: c in code ==> IsDigit(c) || (IsSpace(c) && c != ' ')
  {
    PageCode(PageText(page))
  }

  /** The text the loop builds: every page's text followed by a newline. */
  function JoinPages(pages: seq<Option<string>>): string {
    if pages == [] then ""
    else JoinPages(pages[..|pages| - 1]) + PageText(pages[|pages| - 1]) + "\n"
  }

  /** The code the loop settles on when a page yields `code(page)`: the
      first page that yields a non-empty code sets it, and it is never
      reassigned. */
  function FirstBy(pages: seq<Option<string>>, code: Option<string> -> string): string {
    if pages == [] then ""
    else
      var c := FirstBy(pages[..|pages| - 1], code);
      if c == "" then code(pages[|pages| - 1]) else c
  }

  /** The charge code the loop settles on. */
  function FirstCode(pages: seq<Option<string>>): string {
    FirstBy(pages, CodeOfPage)
  }

  /** `parse_pdf_content`, from the reader's page texts on. */
  method ParsePdfContent(pages: seq<Option<string>>) returns (text: string, chargeCode: string)
    ensures text == JoinPages(pages)
    ensures chargeCode == FirstCode(pages)
  {
    text := "";
    chargeCode := "";
    for i := 0 to |pages|
      invariant text == JoinPages(pages[..i])
      invariant chargeCode == FirstCode(pages[..i])
    {
      assert pages[..i + 1][..i] == pages[..i];
      var pageText := PageText(pages[i]);
      text := text + pageText + "\n";
      if chargeCode == "" {
        match SearchCode(pageText, 0)
        case Some(g) =>
          chargeCode := RemoveSpaces(g);
        case None =>
      }
    }
    assert pages[..|pages|] == pages;
  }

  /** The charge code is the code of the first page that yields one, and
      `""` exactly when no page does. */
  lemma FirstCodeIsFirstMatch(pages: seq<Option<string>>)
    ensures FirstCode(pages) == "" <==> forall k :: 0 <= k < |pages| ==> CodeOfPage(pages[k]) == ""
    ensures FirstCode(pages) != "" ==>
      exists k :: 0 <= k < |pages| && FirstCode(pages) == CodeOfPage(pages[k]) &&
        forall h :: 0 <= h < k ==> CodeOfPage(pages[h]) == ""
  {
    if FirstCode(pages) == "" {
      FirstByEmpty(pages, CodeOfPage);
    } else {
      var k := FirstByPage(pages, CodeOfPage);
    }
  }

  /** No code is set only when no page yields one. */
  lemma {:induction false} FirstByEmpty(pages: seq<Option<string>>, code: Option<string> -> string)
    requires FirstBy(pages, code) == ""
    ensures forall k :: 0 <= k < |pages| ==> code(pages[k]) == ""
    decreases |pages|
  {
    if pages != [] {
      var init := pages[..|pages| - 1];
      FirstByEmpty(init, code);
      assert forall k :: 0 <= k < |init| ==> init[k] == pages[k];
    }
  }

  /** The page whose code the loop keeps. */
  lemma {:induction false} FirstByPage(pages: seq<Option<string>>, code: Option<string> -> string) returns (k: nat)
    requires FirstBy(pages, code) != ""
    ensures k < |pages| && FirstBy(pages, code) == code(pages[k])
    ensures forall h :: 0 <= h < k ==> code(pages[h]) == ""
    decreases |pages|
  {
    var init := pages[..|pages| - 1];
    assert forall h :: 0 <= h < |init| ==> init[h] == pages[h];
    if FirstBy(init, code) != "" {
      k := FirstByPage(init, code);
    } else {
      FirstByEmpty(init, code);
      k := |pages| - 1;
    }
  }

  /** Once a code is set, no later page changes it. */
  lemma FirstCodeStable(pages: seq<Option<string>>, more: seq<Option<string>>)
    requires FirstCode(pages) != ""
    ensures FirstCode(pages + more) == FirstCode(pages)
  {
    FirstByStable(pages, more, CodeOfPage);
  }

  lemma {:induction false} FirstByStable(pages: seq<Option<string>>, more: seq<Option<string>>,
                                         code: Option<string> -> string)
    requires FirstBy(pages, code) != ""
    ensures FirstBy(pages + more, code) == FirstBy(pages, code)
    decreases |more|
  {
    if more == [] {
      assert pages + more == pages;
    } else {
      var all := pages + more;
      var shorter := more[..|more| - 1];
      assert all[..|all| - 1] == pages + shorter;
      FirstByStable(pages, shorter, code);
    }
  }

  /** The text built from two runs of pages is the two texts in turn. */
  lemma {:induction false} JoinPagesAppend(pages: seq<Option<string>>, more: seq<Option<string>>)
    ensures JoinPages(pages + more) == JoinPages(pages) + JoinPages(more)
    decreases |more|
  {
    if more == [] {
      assert pages + more == pages;
    } else {
      var all := pages + more;
      var shorter := more[..|more| - 1];
      assert all[..|all| - 1] == pages + shorter;
      var page := PageText(more[|more| - 1]) + "\n";
      assert all[|all| - 1] == more[|more| - 1];
      assert JoinPages(all) == JoinPages(pages + shorter) + page;
      assert JoinPages(more) == JoinPages(shorter) + page;
      JoinPagesAppend(pages, shorter);
      SeqAssoc(JoinPages(pages), JoinPages(shorter), page);
    }
  }

  lemma SeqAssoc(x: string, y: string, z: string)
    ensures x + y + z == x + (y + z)
  {
  }

  /** Every character of a code is a digit or whitespace other than the
      space, and it holds nine to twelve digits. */
  lemma FirstCodeShape(pages: seq<Option<string>>)
    ensures FirstCode(pages) != "" ==> ' ' !in FirstCode(pages) && 9 <= DigitCount(FirstCode(pages)) <= 12
    ensures forall c :: c in FirstCode(pages) ==> IsDigit(c) || (IsSpace(c) && c != ' ')
  {
    if FirstCode(pages) != "" {
      var k := FirstByPage(pages, CodeOfPage);
    }
  }
}
