/** The Python string operations the core relies on, over `string == seq<char>`:
    `str.isspace`, `strip`, `lower`, `re.sub(r"\s+", " ", s)`, `split()`,
    `split(sep)`, `sep.join`, `splitlines`, `re.findall(r"[A-Za-z0-9]+", s)`,
    `in` on strings and `str(n)` for a natural number. */
module Text {
  import opened Wrappers
  import opened Seqs

  /** `str.isspace()` for one character; `\s`, `strip()` and `split()` use
      the same class. */
  predicate IsSpace(c: char) {
    || c == ' '
    || ('\t' <= c <= '\r')
    || ('\U{1C}' <= c <= '\U{1F}')
    || c == '\U{85}' || c == '\U{A0}' || c == '\U{1680}'
    || ('\U{2000}' <= c <= '\U{200A}')
    || c == '\U{2028}' || c == '\U{2029}' || c == '\U{202F}' || c == '\U{205F}' || c == '\U{3000}'
  }

  predicate NoSpace(s: string) {
    forall i :: 0 <= i < |s| ==> !IsSpace(s[i])
  }

  predicate AllSpace(s: string) {
    forall i :: 0 <= i < |s| ==> IsSpace(s[i])
  }

  /** Neither the first nor the last character is whitespace. */
  predicate NoEdgeSpace(s: string) {
    s == [] || (!IsSpace(s[0]) && !IsSpace(s[|s| - 1]))
  }

  /** No two consecutive characters are both whitespace. */
  predicate NoDoubleSpace(s: string) {
    forall i :: 0 <= i < |s| - 1 ==> !(IsSpace(s[i]) && IsSpace(s[i + 1]))
  }

  /** The only whitespace character that occurs is the plain space. */
  predicate OnlyBlanks(s: string) {
    forall i :: 0 <= i < |s| ==> IsSpace(s[i]) ==> s[i] == ' '
  }

  /** The number of whitespace characters at the start of `s`. */
  function LeadingSpace(s: string): (k: nat)
    ensures k <= |s|
  {
    if s != [] && IsSpace(s[0]) then 1 + LeadingSpace(s[1..]) else 0
  }

  lemma {:induction false} LeadingSpaceSpec(s: string)
    ensures forall i :: 0 <= i < LeadingSpace(s) ==> IsSpace(s[i])
    ensures LeadingSpace(s) < |s| ==> !IsSpace(s[LeadingSpace(s)])
  {
    if s != [] && IsSpace(s[0]) {
      var t := s[1..];
      LeadingSpaceSpec(t);
      assert forall i :: 1 <= i < |s| ==> s[i] == t[i - 1];
    }
  }

  /** The number of whitespace characters at the end of `s`. */
  function TrailingSpace(s: string): (k: nat)
    ensures k <= |s|
  {
    if s != [] && IsSpace(s[|s| - 1]) then 1 + TrailingSpace(s[..|s| - 1]) else 0
  }

  lemma {:induction false} TrailingSpaceSpec(s: string)
    ensures forall i :: |s| - TrailingSpace(s) <= i < |s| ==> IsSpace(s[i])
    ensures TrailingSpace(s) < |s| ==> !IsSpace(s[|s| - 1 - TrailingSpace(s)])
  {
    if s != [] && IsSpace(s[|s| - 1]) {
      var t := s[..|s| - 1];
      TrailingSpaceSpec(t);
      assert forall i :: 0 <= i < |t| ==> s[i] == t[i];
    }
  }

  /** `s.lstrip()`. */
  function TrimStart(s: string): (r: string)
    ensures |r| <= |s|
  {
    s[LeadingSpace(s)..]
  }

  /** What `lstrip` removes is whitespace, and what it keeps does not start
      with whitespace. */
  lemma TrimStartSpec(s: string)
    ensures TrimStart(s) == s[|s| - |TrimStart(s)|..]
    ensures AllSpace(s[..|s| - |TrimStart(s)|])
    ensures TrimStart(s) == [] || !IsSpace(TrimStart(s)[0])
    ensures s != [] && IsSpace(s[0]) ==> |TrimStart(s)| < |s|
  {
    LeadingSpaceSpec(s);
    var k := LeadingSpace(s);
    assert forall i :: 0 <= i < k ==> s[..k][i] == s[i];
  }

  /** `s.rstrip()`. */
  function TrimEnd(s: string): (r: string)
    ensures r <= s
  {
    s[..|s| - TrailingSpace(s)]
  }

  /** What `rstrip` removes is whitespace, and what it keeps does not end
      with whitespace. */
  lemma TrimEndSpec(s: string)
    ensures AllSpace(s[|TrimEnd(s)|..])
    ensures TrimEnd(s) == [] || !IsSpace(TrimEnd(s)[|TrimEnd(s)| - 1])
  {
    TrailingSpaceSpec(s);
    var k := |s| - TrailingSpace(s);
    assert forall i :: 0 <= i < |s| - k ==> s[k..][i] == s[k + i];
  }

  /** `s.strip()`. */
  function Strip(s: string): (r: string)
    ensures |r| <= |s|
  {
    TrimEnd(TrimStart(s))
  }

  /** `strip` leaves no whitespace at either end, and is the identity on
      text that has none there. */
  lemma StripSpec(s: string)
    ensures NoEdgeSpace(Strip(s))
    ensures NoEdgeSpace(s) ==> Strip(s) == s
  {
    var t := TrimStart(s);
    TrimStartSpec(s);
    TrimEndSpec(t);
    var r := TrimEnd(t);
    if r != [] {
      assert r[0] == t[0];
    }
  }

  /** Stripping one blank before text without edge whitespace. */
  lemma StripBlankBefore(q: string)
    requires q != [] && NoEdgeSpace(q)
    ensures Strip(" " + q) == q
  {
    var s := " " + q;
    assert s[1..] == q;
    assert LeadingSpace(q) == 0;
    assert TrimStart(s) == q;
    assert TrailingSpace(q) == 0;
  }

  /** Stripping one blank on each side of text without edge whitespace. */
  lemma StripBlanksAround(q: string)
    requires q != [] && NoEdgeSpace(q)
    ensures Strip(" " + q + " ") == q
  {
    var s := " " + q + " ";
    var t := q + " ";
    assert s[1..] == t;
    assert LeadingSpace(t) == 0;
    assert TrimStart(s) == t;
    assert t[..|t| - 1] == q;
    assert TrailingSpace(q) == 0;
    assert TrimEnd(t) == q;
  }

  lemma StripIdempotent(s: string)
    ensures Strip(Strip(s)) == Strip(s)
  {
    StripSpec(s);
    StripSpec(Strip(s));
  }

  /** Stripping cuts a slice out of `s`, so slice-closed shapes survive it. */
  lemma StripKeepsShape(s: string)
    requires NoDoubleSpace(s) && OnlyBlanks(s)
    ensures NoDoubleSpace(Strip(s)) && OnlyBlanks(Strip(s))
  {
    var t := TrimStart(s);
    assert forall i :: 0 <= i < |t| ==> t[i] == s[|s| - |t| + i];
    var r := TrimEnd(t);
    assert forall i :: 0 <= i < |r| ==> r[i] == t[i];
  }

  function LowerChar(c: char): char {
    if 'A' <= c <= 'Z' then (c as int + 32) as char else c
  }

  /** `s.lower()` on the ASCII letters. */
  function Lower(s: string): string {
    seq(|s|, i requires 0 <= i < |s| => LowerChar(s[i]))
  }

  lemma LowerIdempotent(s: string)
    ensures Lower(Lower(s)) == Lower(s)
  {
  }

  /** Lower-casing changes letters only, so it keeps whitespace where it was. */
  lemma LowerKeepsSpace(s: string)
    ensures |Lower(s)| == |s|
    ensures forall i :: 0 <= i < |s| ==> (IsSpace(Lower(s)[i]) <==> IsSpace(s[i]))
    ensures NoEdgeSpace(s) ==> NoEdgeSpace(Lower(s))
    ensures AllSpace(s) <==> AllSpace(Lower(s))
  {
  }

  /** `re.sub(r"\s+", " ", s)`: every maximal run of whitespace becomes one space. */
  function Collapse(s: string): string
    decreases |s|
  {
    if s == [] then []
    else if IsSpace(s[0]) then TrimStartSpec(s); [' '] + Collapse(TrimStart(s))
    else [s[0]] + Collapse(s[1..])
  }

  /** `_clean_text`: collapse whitespace runs, then strip. */
  function CleanText(s: string): string {
    Strip(Collapse(s))
  }

  lemma ConsShape(c: char, t: string)
    requires NoDoubleSpace(t) && OnlyBlanks(t)
    requires IsSpace(c) ==> c == ' ' && (t == [] || !IsSpace(t[0]))
    ensures NoDoubleSpace([c] + t) && OnlyBlanks([c] + t)
  {
    var u := [c] + t;
    assert forall i :: 1 <= i < |u| ==> u[i] == t[i - 1];
  }

  lemma {:induction false} CollapseShape(s: string)
    ensures NoDoubleSpace(Collapse(s)) && OnlyBlanks(Collapse(s))
    decreases |s|
  {
    if s == [] {
    } else if IsSpace(s[0]) {
      var t := TrimStart(s);
      TrimStartSpec(s);
      CollapseShape(t);
      if t != [] {
        assert Collapse(t) == [t[0]] + Collapse(t[1..]);
      }
      ConsShape(' ', Collapse(t));
    } else {
      CollapseShape(s[1..]);
      ConsShape(s[0], Collapse(s[1..]));
    }
  }

  /** A text that is already collapsed is a fixed point of `Collapse`. */
  lemma {:induction false} CollapseFixed(s: string)
    requires NoDoubleSpace(s) && OnlyBlanks(s)
    ensures Collapse(s) == s
    decreases |s|
  {
    if s == [] {
    } else if IsSpace(s[0]) {
      assert |s| > 1 ==> !IsSpace(s[1]);
      assert LeadingSpace(s) == 1 + LeadingSpace(s[1..]);
      assert TrimStart(s) == s[1..];
      CollapseFixed(s[1..]);
    } else {
      CollapseFixed(s[1..]);
    }
  }

  /** `_clean_text` leaves no leading, trailing or doubled whitespace, and
      every whitespace it leaves is a plain space. */
  lemma CleanTextShape(s: string)
    ensures NoEdgeSpace(CleanText(s))
    ensures NoDoubleSpace(CleanText(s))
    ensures OnlyBlanks(CleanText(s))
  {
    CollapseShape(s);
    StripKeepsShape(Collapse(s));
    StripSpec(Collapse(s));
  }

  /** `_clean_text` is idempotent. */
  lemma CleanTextIdempotent(s: string)
    ensures CleanText(CleanText(s)) == CleanText(s)
  {
    var t := CleanText(s);
    CleanTextShape(s);
    CollapseFixed(t);
    StripSpec(t);
  }

  /** The characters of `s` other than whitespace, in order. */
  function Visible(s: string): string {
    if s == [] then [] else (if IsSpace(s[0]) then [] else [s[0]]) + Visible(s[1..])
  }

  lemma {:induction false} VisibleConcat(a: string, b: string)
    ensures Visible(a + b) == Visible(a) + Visible(b)
  {
    if a == [] {
      assert a + b == b;
    } else {
      assert (a + b)[1..] == a[1..] + b;
      VisibleConcat(a[1..], b);
    }
  }

  lemma {:induction false} VisibleAllSpace(s: string)
    requires AllSpace(s)
    ensures Visible(s) == []
  {
    if s != [] {
      VisibleAllSpace(s[1..]);
    }
  }

  lemma TrimStartVisible(s: string)
    ensures Visible(TrimStart(s)) == Visible(s)
  {
    var t := TrimStart(s);
    var removed := s[..|s| - |t|];
    TrimStartSpec(s);
    assert s == removed + t;
    VisibleConcat(removed, t);
    VisibleAllSpace(removed);
  }

  lemma TrimEndVisible(s: string)
    ensures Visible(TrimEnd(s)) == Visible(s)
  {
    var r := TrimEnd(s);
    var removed := s[|r|..];
    TrimEndSpec(s);
    assert s == r + removed;
    VisibleConcat(r, removed);
    VisibleAllSpace(removed);
  }

  lemma StripVisible(s: string)
    ensures Visible(Strip(s)) == Visible(s)
  {
    TrimStartVisible(s);
    TrimEndVisible(TrimStart(s));
  }

  lemma {:induction false} CollapseVisible(s: string)
    ensures Visible(Collapse(s)) == Visible(s)
    decreases |s|
  {
    if s == [] {
    } else if IsSpace(s[0]) {
      var t := TrimStart(s);
      TrimStartSpec(s);
      CollapseVisible(t);
      TrimStartVisible(s);
    } else {
      CollapseVisible(s[1..]);
    }
  }

  /** `_clean_text` only touches whitespace: every other character survives, in order. */
  lemma CleanTextKeepsVisible(s: string)
    ensures Visible(CleanText(s)) == Visible(s)
  {
    CollapseVisible(s);
    StripVisible(Collapse(s));
  }

  /** The longest prefix of `s` without whitespace. */
  function TakeWord(s: string): (w: string)
    ensures w <= s && NoSpace(w)
    ensures |w| < |s| ==> IsSpace(s[|w|])
    ensures s != [] && !IsSpace(s[0]) ==> |w| >= 1
  {
    if s == [] || IsSpace(s[0]) then [] else [s[0]] + TakeWord(s[1..])
  }

  /** `s.split()` with no separator: the maximal runs of non-whitespace. */
  function Words(s: string): seq<string>
    decreases |s|
  {
    if s == [] then []
    else if IsSpace(s[0]) then Words(s[1..])
    else
      var w := TakeWord(s);
      [w] + Words(s[|w|..])
  }

  /** Every word is nonempty and holds no whitespace. */
  lemma {:induction false} WordsShape(s: string)
    ensures forall i :: 0 <= i < |Words(s)| ==> Words(s)[i] != [] && NoSpace(Words(s)[i])
    decreases |s|
  {
    if s != [] {
      if IsSpace(s[0]) {
        WordsShape(s[1..]);
      } else {
        var w := TakeWord(s);
        WordsShape(s[|w|..]);
        assert Words(s) == [w] + Words(s[|w|..]);
      }
    }
  }

  lemma {:induction false} WordsAllSpace(s: string)
    requires AllSpace(s)
    ensures Words(s) == []
    decreases |s|
  {
    if s != [] {
      assert forall i :: 0 <= i < |s| - 1 ==> s[1..][i] == s[i + 1];
      WordsAllSpace(s[1..]);
    }
  }

  lemma {:induction false} TakeWordPrefix(a: string, t: string)
    requires t != [] && IsSpace(t[0])
    ensures TakeWord(a + t) == TakeWord(a)
  {
    if a == [] {
      assert a + t == t;
    } else if !IsSpace(a[0]) {
      assert (a + t)[1..] == a[1..] + t;
      TakeWordPrefix(a[1..], t);
    }
  }

  lemma {:induction false} TakeWordWhole(w: string)
    requires NoSpace(w)
    ensures TakeWord(w) == w
  {
    if w != [] {
      assert forall i :: 0 <= i < |w| - 1 ==> w[1..][i] == w[i + 1];
      TakeWordWhole(w[1..]);
    }
  }

  /** One step of `split()` on text that starts with whitespace. */
  lemma WordsSkip(s: string)
    requires s != [] && IsSpace(s[0])
    ensures Words(s) == Words(s[1..])
  {
  }

  /** One step of `split()` on text that starts with a word. */
  lemma WordsUnfold(s: string)
    requires s != [] && !IsSpace(s[0])
    ensures Words(s) == [TakeWord(s)] + Words(s[|TakeWord(s)|..])
  {
  }

  /** A whitespace character separates words: the words of the two sides
      are simply concatenated. */
  lemma {:induction false} WordsSplit(a: string, c: char, b: string)
    requires IsSpace(c)
    ensures Words(a + [c] + b) == Words(a) + Words(b)
    decreases |a|, 1
  {
    if a == [] {
      var s := a + [c] + b;
      assert s == [c] + b;
      WordsSkip(s);
      assert s[1..] == b;
    } else if IsSpace(a[0]) {
      WordsSplitSkip(a, c, b);
    } else {
      WordsSplitWord(a, c, b);
    }
  }

  lemma {:induction false} WordsSplitSkip(a: string, c: char, b: string)
    requires IsSpace(c) && a != [] && IsSpace(a[0])
    ensures Words(a + [c] + b) == Words(a) + Words(b)
    decreases |a|, 0
  {
    assert Words(a + [c] + b) == Words(a[1..] + [c] + b) by {
      var s := a + [c] + b;
      WordsSkip(s);
      assert s[1..] == a[1..] + [c] + b;
    }
    assert Words(a) == Words(a[1..]) by {
      WordsSkip(a);
    }
    WordsSplit(a[1..], c, b);
  }

  lemma {:induction false} WordsSplitWord(a: string, c: char, b: string)
    requires IsSpace(c) && a != [] && !IsSpace(a[0])
    ensures Words(a + [c] + b) == Words(a) + Words(b)
    decreases |a|, 0
  {
    var w := TakeWord(a);
    var a' := a[|w|..];
    assert Words(a + [c] + b) == [w] + Words(a' + [c] + b) by {
      assert a + [c] + b == a + ([c] + b);
      WordsAfterWord(a, [c] + b);
      assert a' + ([c] + b) == a' + [c] + b;
    }
    assert Words(a) == [w] + Words(a') by {
      WordsUnfold(a);
    }
    WordsSplit(a', c, b);
    ConsAssoc(w, Words(a'), Words(b));
  }

  /** A word followed by text that starts with whitespace stays one word. */
  lemma WordsAfterWord(a: string, t: string)
    requires a != [] && !IsSpace(a[0]) && t != [] && IsSpace(t[0])
    ensures Words(a + t) == [TakeWord(a)] + Words(a[|TakeWord(a)|..] + t)
  {
    var w := TakeWord(a);
    TakeWordPrefix(a, t);
    WordsUnfold(a + t);
    DropAppend(a, t, |w|);
  }

  /** `" ".join(words).split() == words` for non-empty words without whitespace. */
  lemma {:induction false} WordsOfJoin(ws: seq<string>)
    requires forall i :: 0 <= i < |ws| ==> ws[i] != [] && NoSpace(ws[i])
    ensures Words(Join(" ", ws)) == ws
  {
    if |ws| == 1 {
      WordsOfWord(ws[0]);
    } else if |ws| > 1 {
      WordsOfJoin(ws[1..]);
      WordsSplit(ws[0], ' ', Join(" ", ws[1..]));
      WordsOfWord(ws[0]);
      assert ws == [ws[0]] + ws[1..];
    }
  }

  /** Surrounding whitespace does not change the words. */
  lemma WordsTrimStart(s: string)
    ensures Words(TrimStart(s)) == Words(s)
  {
    var t := TrimStart(s);
    var removed := s[..|s| - |t|];
    TrimStartSpec(s);
    assert s == removed + t;
    if removed != [] {
      var n := |removed|;
      assert s == removed[..n - 1] + [removed[n - 1]] + t;
      WordsSplit(removed[..n - 1], removed[n - 1], t);
      WordsAllSpace(removed[..n - 1]);
    }
  }

  lemma WordsTrimEnd(s: string)
    ensures Words(TrimEnd(s)) == Words(s)
  {
    var r := TrimEnd(s);
    var removed := s[|r|..];
    TrimEndSpec(s);
    assert s == r + removed;
    if removed != [] {
      assert s == r + [removed[0]] + removed[1..];
      WordsSplit(r, removed[0], removed[1..]);
      WordsAllSpace(removed[1..]);
      assert Words(s) == Words(r) + [];
    } else {
      assert s == r;
    }
  }

  /** Prepending a non-whitespace character extends the first word, or
      starts a new one when the text begins with whitespace. */
  lemma WordsCons(c: char, x: string)
    requires !IsSpace(c)
    ensures x == [] || IsSpace(x[0]) ==> Words([c] + x) == [[c]] + Words(x)
    ensures x != [] && !IsSpace(x[0]) ==>
      |Words(x)| >= 1 && Words([c] + x) == [[c] + Words(x)[0]] + Words(x)[1..]
  {
    var s := [c] + x;
    assert s[1..] == x;
    var w := TakeWord(x);
    assert TakeWord(s) == [c] + w;
    assert s[|[c] + w|..] == x[|w|..];
    if x == [] || IsSpace(x[0]) {
      assert w == [];
      assert TakeWord(s) == [c];
      assert Words(s) == [TakeWord(s)] + Words(s[|TakeWord(s)|..]);
    }
  }

  /** Collapsing whitespace keeps the words, and whether the text starts
      with whitespace. */
  lemma {:induction false} WordsCollapse(s: string)
    ensures Words(Collapse(s)) == Words(s)
    ensures (Collapse(s) == []) == (s == [])
    ensures s != [] ==> (IsSpace(Collapse(s)[0]) <==> IsSpace(s[0]))
    decreases |s|
  {
    if s == [] {
    } else if IsSpace(s[0]) {
      var t := TrimStart(s);
      TrimStartSpec(s);
      WordsCollapse(t);
      var u := [' '] + Collapse(t);
      assert u[1..] == Collapse(t);
      WordsTrimStart(s);
    } else {
      WordsCollapse(s[1..]);
      WordsCons(s[0], Collapse(s[1..]));
      WordsCons(s[0], s[1..]);
      assert s == [s[0]] + s[1..];
    }
  }

  /** A single word is its own `split()`. */
  lemma WordsOfWord(w: string)
    requires w != [] && NoSpace(w)
    ensures Words(w) == [w]
  {
    TakeWordWhole(w);
    assert w[|w|..] == [];
  }

  /** Text that starts with a non-whitespace character has a first word. */
  lemma WordsNonEmpty(s: string)
    requires s != [] && !IsSpace(s[0])
    ensures |Words(s)| >= 1
  {
  }

  lemma JoinCons(sep: string, x: string, xs: seq<string>)
    requires |xs| >= 1
    ensures Join(sep, [x] + xs) == x + sep + Join(sep, xs)
  {
    assert ([x] + xs)[1..] == xs;
  }

  /** Text without edge or doubled whitespace whose only whitespace is the
      plain space is its words joined by single spaces. */
  lemma {:induction false} CleanIsJoinedWords(t: string)
    requires NoEdgeSpace(t) && NoDoubleSpace(t) && OnlyBlanks(t)
    ensures t == Join(" ", Words(t))
    decreases |t|
  {
    if t != [] {
      var w := TakeWord(t);
      if |w| < |t| {
        CleanWordBreak(t);
        var rest := t[|w| + 1..];
        CleanSuffix(t, |w| + 1);
        CleanIsJoinedWords(rest);
        WordsSplit(w, ' ', rest);
        WordsOfWord(w);
        WordsNonEmpty(rest);
        JoinCons(" ", w, Words(rest));
      } else {
        WordsOfWord(t);
      }
    }
  }

  /** In such text the first word is followed by one space and by more
      text that starts with a word. */
  lemma CleanWordBreak(t: string)
    requires NoEdgeSpace(t) && NoDoubleSpace(t) && OnlyBlanks(t)
    requires t != [] && |TakeWord(t)| < |t|
    ensures var w := TakeWord(t);
      && |w| + 1 < |t| && w != [] && t[|w|] == ' ' && !IsSpace(t[|w| + 1])
      && t == w + " " + t[|w| + 1..]
  {
    var w := TakeWord(t);
    assert IsSpace(t[|w|]);
    assert t == w + [t[|w|]] + t[|w| + 1..];
  }

  /** A suffix of such text that starts with a word is such text again. */
  lemma CleanSuffix(t: string, j: nat)
    requires NoEdgeSpace(t) && NoDoubleSpace(t) && OnlyBlanks(t)
    requires j < |t| && !IsSpace(t[j])
    ensures var r := t[j..]; r != [] && NoEdgeSpace(r) && NoDoubleSpace(r) && OnlyBlanks(r)
  {
    var r := t[j..];
    assert forall i :: 0 <= i < |r| ==> r[i] == t[j + i];
  }

  /** `_clean_text(s) == " ".join(s.split())`. */
  lemma CleanTextWords(s: string)
    ensures CleanText(s) == Join(" ", Words(s))
  {
    var c := Collapse(s);
    CleanTextShape(s);
    CleanIsJoinedWords(CleanText(s));
    WordsTrimStart(c);
    WordsTrimEnd(TrimStart(c));
    WordsCollapse(s);
  }

  /** `s[k..]` starts with `pat`. */
  predicate MatchAt(s: string, pat: string, k: int) {
    0 <= k && k + |pat| <= |s| && s[k..k + |pat|] == pat
  }

  function FindFrom(s: string, pat: string, i: nat): (r: Option<nat>)
    requires i <= |s|
    ensures r.Some? ==> i <= r.value && MatchAt(s, pat, r.value)
    ensures r.Some? ==> forall k :: i <= k < r.value ==> !MatchAt(s, pat, k)
    ensures r.None? ==> forall k :: i <= k ==> !MatchAt(s, pat, k)
    decreases |s| - i
  {
    if i + |pat| > |s| then None
    else if s[i..i + |pat|] == pat then Some(i)
    else if i == |s| then None
    else FindFrom(s, pat, i + 1)
  }

  /** `s.find(pat)`, as an option: the first position where `pat` occurs. */
  function Find(s: string, pat: string): (r: Option<nat>)
    ensures r.Some? ==> MatchAt(s, pat, r.value)
    ensures r.Some? ==> forall k :: 0 <= k < r.value ==> !MatchAt(s, pat, k)
    ensures r.None? ==> forall k :: !MatchAt(s, pat, k)
  {
    FindFrom(s, pat, 0)
  }

  /** `pat in s`. */
  predicate Contains(s: string, pat: string) {
    Find(s, pat).Some?
  }

  lemma FindFirst(s: string, pat: string, k: nat)
    requires MatchAt(s, pat, k)
    requires forall j :: 0 <= j < k ==> !MatchAt(s, pat, j)
    ensures Find(s, pat) == Some(k)
  {
  }

  /** `s.split(sep)` for a non-empty separator. */
  function Split(s: string, sep: string): (r: seq<string>)
    requires |sep| > 0
    ensures |r| >= 1
    decreases |s|
  {
    match Find(s, sep)
    case None => [s]
    case Some(k) => [s[..k]] + Split(s[k + |sep|..], sep)
  }

  /** `sep.join(xs)`. */
  function Join(sep: string, xs: seq<string>): string {
    if |xs| == 0 then ""
    else if |xs| == 1 then xs[0]
    else xs[0] + sep + Join(sep, xs[1..])
  }

  /** Joining the pieces of a split gives back the string. */
  lemma {:induction false} JoinSplit(s: string, sep: string)
    requires |sep| > 0
    ensures Join(sep, Split(s, sep)) == s
    decreases |s|
  {
    match Find(s, sep)
    case None =>
    case Some(k) =>
      var rest := Split(s[k + |sep|..], sep);
      JoinSplit(s[k + |sep|..], sep);
      assert ([s[..k]] + rest)[1..] == rest;
      assert s == s[..k] + sep + s[k + |sep|..];
  }

  /** No non-empty proper prefix of `sep` is also a suffix of it, so an
      occurrence of `sep` cannot straddle the end of a piece that does not
      contain it. */
  predicate Borderless(sep: string) {
    forall m :: 0 < m < |sep| ==> sep[m..] != sep[..|sep| - m]
  }

  lemma FindAfterPiece(x: string, sep: string, y: string)
    requires |sep| > 0 && Borderless(sep) && !Contains(x, sep)
    ensures Find(x + sep + y, sep) == Some(|x|)
  {
    var s := x + sep + y;
    assert s[|x|..|x| + |sep|] == sep;
    forall j | 0 <= j < |x|
      ensures !MatchAt(s, sep, j)
    {
      if j + |sep| <= |x| {
        assert s[j..j + |sep|] == x[j..j + |sep|];
        assert !MatchAt(x, sep, j);
      } else {
        var m := |x| - j;
        var u := s[j..j + |sep|];
        assert u == x[j..] + sep[..|sep| - m];
        assert u[m..] == sep[..|sep| - m];
        assert sep[m..] != sep[..|sep| - m];
      }
    }
    FindFirst(s, sep, |x|);
  }

  /** A piece free of a borderless separator splits off as the first piece. */
  lemma SplitAfterPiece(x: string, sep: string, y: string)
    requires |sep| > 0 && Borderless(sep) && !Contains(x, sep)
    ensures Split(x + sep + y, sep) == [x] + Split(y, sep)
  {
    FindAfterPiece(x, sep, y);
    var s := x + sep + y;
    assert s[..|x|] == x;
    assert s[|x| + |sep|..] == y;
  }

  /** Splitting a join gives back the pieces when the separator is borderless
      and occurs in none of them. */
  lemma {:induction false} SplitJoin(xs: seq<string>, sep: string)
    requires |xs| >= 1 && |sep| > 0 && Borderless(sep)
    requires forall i :: 0 <= i < |xs| ==> !Contains(xs[i], sep)
    ensures Split(Join(sep, xs), sep) == xs
  {
    if |xs| > 1 {
      SplitAfterPiece(xs[0], sep, Join(sep, xs[1..]));
      SplitJoin(xs[1..], sep);
      assert xs == [xs[0]] + xs[1..];
    }
  }

  lemma CommaSpaceBorderless()
    ensures Borderless(", ")
  {
    assert ", "[1..] == " ";
    assert ", "[..1] == ",";
  }

  /** The line boundaries of `str.splitlines()`. */
  predicate IsLineBreak(c: char) {
    || c == '\n' || c == '\r' || c == '\U{0B}' || c == '\U{0C}'
    || ('\U{1C}' <= c <= '\U{1E}')
    || c == '\U{85}' || c == '\U{2028}' || c == '\U{2029}'
  }

  predicate NoLineBreak(s: string) {
    forall i :: 0 <= i < |s| ==> !IsLineBreak(s[i])
  }

  /** The length of the first line of `s`. */
  function LineLength(s: string): (k: nat)
    ensures k <= |s| && NoLineBreak(s[..k])
    ensures k < |s| ==> IsLineBreak(s[k])
  {
    if s == [] || IsLineBreak(s[0]) then 0 else 1 + LineLength(s[1..])
  }

  /** The width of the line boundary at `k`: two for `\r\n`, else one. */
  function BreakWidth(s: string, k: nat): (w: nat)
    requires k < |s|
    ensures w == 1 || (w == 2 && k + 1 < |s| && s[k + 1] == '\n')
  {
    if s[k] == '\r' && k + 1 < |s| && s[k + 1] == '\n' then 2 else 1
  }

  /** `s.splitlines()`: `\r\n` is one boundary, and a final boundary does not
      start an empty last line. */
  function Lines(s: string): (r: seq<string>)
    ensures forall i :: 0 <= i < |r| ==> NoLineBreak(r[i])
    decreases |s|
  {
    if s == [] then []
    else
      var k := LineLength(s);
      if k == |s| then [s]
      else [s[..k]] + Lines(s[k + BreakWidth(s, k)..])
  }

  lemma {:induction false} NoLineBreakConcat(a: string, b: string)
    ensures NoLineBreak(a + b) <==> NoLineBreak(a) && NoLineBreak(b)
  {
    assert forall i :: 0 <= i < |a| ==> (a + b)[i] == a[i];
    assert forall i :: 0 <= i < |b| ==> (a + b)[|a| + i] == b[i];
  }

  /** Every line boundary is whitespace. */
  lemma LineBreakIsSpace(c: char)
    requires IsLineBreak(c)
    ensures IsSpace(c) && c != ' '
  {
  }

  /** `_clean_text` leaves a single line: every line boundary was whitespace
      and became a plain space. */
  lemma CleanTextOneLine(s: string)
    ensures NoLineBreak(CleanText(s))
  {
    var t := CleanText(s);
    CleanTextShape(s);
    forall i | 0 <= i < |t|
      ensures !IsLineBreak(t[i])
    {
      if IsLineBreak(t[i]) {
        LineBreakIsSpace(t[i]);
      }
    }
  }

  lemma NoLineBreak3(a: string, b: string, c: string)
    requires NoLineBreak(a) && NoLineBreak(b) && NoLineBreak(c)
    ensures NoLineBreak(a + b + c)
  {
    NoLineBreakConcat(a, b);
    NoLineBreakConcat(a + b, c);
  }

  /** A leading line boundary starts with an empty line. */
  lemma LinesAfterBlank(body: string)
    ensures Lines("\n" + body) == [""] + Lines(body)
  {
    assert "" + "\n" + body == "\n" + body;
    LinesAfterLine("", body);
  }

  lemma HeaderShape(l1: string, l2: string, body: string)
    ensures l1 + "\n" + l2 + "\n" + "\n" + body == l1 + "\n" + (l2 + "\n" + ("\n" + body))
  {
  }

  /** A one-line header line, a second header line that may span several
      lines but does not end in a boundary, an empty line, then a body. */
  lemma LinesOfHeader(l1: string, l2: string, body: string)
    requires NoLineBreak(l1) && l2 != [] && !IsLineBreak(l2[|l2| - 1])
    ensures Lines(l1 + "\n" + l2 + "\n" + "\n" + body) == [l1] + Lines(l2) + [""] + Lines(body)
  {
    HeaderShape(l1, l2, body);
    LinesAfterBlank(body);
    LinesAppend(l2, "\n" + body);
    LinesAfterLine(l1, l2 + "\n" + ("\n" + body));
  }

  lemma LinesOfLine(x: string)
    requires x != [] && NoLineBreak(x)
    ensures Lines(x) == [x]
  {
  }

  lemma LinesAfterLine(x: string, rest: string)
    requires NoLineBreak(x)
    ensures Lines(x + "\n" + rest) == [x] + Lines(rest)
  {
    var s := x + "\n" + rest;
    assert s[|x|] == '\n';
    assert LineLength(s) == |x| by {
      LineLengthPrefix(x, "\n" + rest);
      assert s == x + ("\n" + rest);
    }
    assert s[..|x|] == x;
    assert s[|x| + 1..] == rest;
  }

  lemma {:induction false} LineLengthPrefix(x: string, t: string)
    requires NoLineBreak(x) && t != [] && IsLineBreak(t[0])
    ensures LineLength(x + t) == |x|
  {
    if x != [] {
      assert (x + t)[1..] == x[1..] + t;
      LineLengthPrefix(x[1..], t);
    } else {
      assert x + t == t;
    }
  }

  /** Lines joined by `"\n"` split back into the same lines, as long as the
      last one is not empty. */
  lemma {:induction false} LinesOfJoin(ls: seq<string>)
    requires |ls| >= 1 && ls[|ls| - 1] != []
    requires forall i :: 0 <= i < |ls| ==> NoLineBreak(ls[i])
    ensures Lines(Join("\n", ls)) == ls
  {
    if |ls| == 1 {
      LinesOfLine(ls[0]);
    } else {
      assert ls[1..][|ls| - 2] == ls[|ls| - 1];
      LinesAfterLine(ls[0], Join("\n", ls[1..]));
      LinesOfJoin(ls[1..]);
      assert ls == [ls[0]] + ls[1..];
    }
  }

  /** Text that does not end in a line boundary, then `"\n"` and more text:
      its own lines come first, then the lines of the rest. */
  lemma {:induction false} LinesAppend(x: string, y: string)
    requires x != [] && !IsLineBreak(x[|x| - 1])
    ensures Lines(x + "\n" + y) == Lines(x) + Lines(y)
    decreases |x|, 1
  {
    if LineLength(x) == |x| {
      assert x[..|x|] == x;
      LinesAfterLine(x, y);
      LinesOfLine(x);
    } else {
      LinesAppendStep(x, y);
    }
  }

  lemma {:induction false} LinesAppendStep(x: string, y: string)
    requires x != [] && !IsLineBreak(x[|x| - 1]) && LineLength(x) < |x|
    ensures Lines(x + "\n" + y) == Lines(x) + Lines(y)
    decreases |x|, 0
  {
    var l, x' := LinesAfterFirstBreak(x, y);
    LinesAppend(x', y);
    ConsAssoc(l, Lines(x'), Lines(y));
  }

  /** Past the first line boundary of `x`, appending to `x` appends to the rest. */
  lemma LinesAfterFirstBreak(x: string, y: string) returns (l: string, x': string)
    requires x != [] && !IsLineBreak(x[|x| - 1]) && LineLength(x) < |x|
    ensures Lines(x) == [l] + Lines(x')
    ensures Lines(x + "\n" + y) == [l] + Lines(x' + "\n" + y)
    ensures x' != [] && |x'| < |x| && !IsLineBreak(x'[|x'| - 1])
  {
    var br;
    l, br, x' := FirstBreak(x);
    LinesAfterBreak(l, br, x');
    LinesAfterBreakAppend(l, br, x', y);
  }

  lemma LinesAfterBreakAppend(l: string, br: string, x': string, y: string)
    requires NoLineBreak(l) && x' != []
    requires br == "\r\n" || (|br| == 1 && IsLineBreak(br[0]) && (br[0] == '\r' ==> x'[0] != '\n'))
    ensures Lines(l + br + x' + "\n" + y) == [l] + Lines(x' + "\n" + y)
  {
    assert l + br + x' + "\n" + y == l + br + (x' + "\n" + y);
    assert (x' + "\n" + y)[0] == x'[0];
    LinesAfterBreak(l, br, x' + "\n" + y);
  }

  /** Text with a line boundary that is not its last character splits into
      its first line, that boundary and a nonempty rest ending as it does. */
  lemma FirstBreak(x: string) returns (l: string, br: string, x': string)
    requires x != [] && !IsLineBreak(x[|x| - 1]) && LineLength(x) < |x|
    ensures x == l + br + x' && NoLineBreak(l) && x' != [] && |x'| < |x|
    ensures x'[|x'| - 1] == x[|x| - 1]
    ensures br == "\r\n" || (|br| == 1 && IsLineBreak(br[0]) && (br[0] == '\r' ==> x'[0] != '\n'))
  {
    var k := LineLength(x);
    var w := BreakWidth(x, k);
    assert IsLineBreak(x[k]);
    l, br, x' := x[..k], x[k..k + w], x[k + w..];
    assert x == l + br + x';
  }

  /** A line, one line boundary (`\r\n` counting as one), then more text:
      the line comes first, then the lines of the rest. */
  lemma LinesAfterBreak(l: string, br: string, rest: string)
    requires NoLineBreak(l)
    requires br == "\r\n" || (|br| == 1 && IsLineBreak(br[0]) && (br[0] == '\r' ==> rest == [] || rest[0] != '\n'))
    ensures Lines(l + br + rest) == [l] + Lines(rest)
  {
    var s := l + br + rest;
    assert LineLength(s) == |l| by {
      assert s == l + (br + rest);
      LineLengthPrefix(l, br + rest);
    }
    assert BreakWidth(s, |l|) == |br| by {
      assert s[|l|] == br[0];
      if br == "\r\n" {
        assert s[|l| + 1] == '\n';
      } else if |l| + 1 < |s| {
        assert s[|l| + 1] == rest[0];
      }
    }
    assert s[..|l|] == l;
    assert s[|l| + |br|..] == rest;
  }

  predicate IsAlnum(c: char) {
    ('A' <= c <= 'Z') || ('a' <= c <= 'z') || ('0' <= c <= '9')
  }

  predicate AllAlnum(s: string) {
    forall i :: 0 <= i < |s| ==> IsAlnum(s[i])
  }

  /** The longest alphanumeric prefix of `s`. */
  function AlnumRun(s: string): (w: string)
    ensures w <= s && AllAlnum(w)
    ensures |w| < |s| ==> !IsAlnum(s[|w|])
    ensures s != [] && IsAlnum(s[0]) ==> |w| >= 1
  {
    if s == [] || !IsAlnum(s[0]) then [] else [s[0]] + AlnumRun(s[1..])
  }

  /** `re.findall(r"[A-Za-z0-9]+", s)`: the maximal alphanumeric runs, in order. */
  function AlnumTokens(s: string): (r: seq<string>)
    ensures forall i :: 0 <= i < |r| ==> r[i] != [] && AllAlnum(r[i])
    decreases |s|
  {
    if s == [] then []
    else if !IsAlnum(s[0]) then AlnumTokens(s[1..])
    else
      var w := AlnumRun(s);
      [w] + AlnumTokens(s[|w|..])
  }

  lemma {:induction false} AlnumRunWhole(w: string)
    requires AllAlnum(w)
    ensures AlnumRun(w) == w
  {
    if w != [] {
      AlnumRunWhole(w[1..]);
    }
  }

  /** A purely alphanumeric word is one token. */
  lemma AlnumTokensOfWord(w: string)
    requires w != [] && AllAlnum(w)
    ensures AlnumTokens(w) == [w]
  {
    AlnumRunWhole(w);
    assert w[|w|..] == [];
  }

  lemma {:induction false} AlnumRunPrefix(a: string, t: string)
    requires t != [] && !IsAlnum(t[0])
    ensures AlnumRun(a + t) == AlnumRun(a)
  {
    if a == [] {
      assert a + t == t;
    } else if IsAlnum(a[0]) {
      assert (a + t)[1..] == a[1..] + t;
      AlnumRunPrefix(a[1..], t);
    }
  }

  /** A non-alphanumeric character separates tokens: the tokens of the two
      sides are simply concatenated. */
  lemma {:induction false} AlnumTokensSplit(a: string, c: char, b: string)
    requires !IsAlnum(c)
    ensures AlnumTokens(a + [c] + b) == AlnumTokens(a) + AlnumTokens(b)
    decreases |a|
  {
    var s := a + [c] + b;
    if a == [] {
      assert s == [c] + b;
      assert s[1..] == b;
    } else if !IsAlnum(a[0]) {
      assert s[1..] == a[1..] + [c] + b;
      AlnumTokensSplit(a[1..], c, b);
    } else {
      AlnumRunPrefix(a, [c] + b);
      assert s == a + ([c] + b);
      var w := AlnumRun(a);
      assert s[|w|..] == a[|w|..] + [c] + b;
      AlnumTokensSplit(a[|w|..], c, b);
    }
  }

  function DigitChar(d: nat): char
    requires d < 10
  {
    ('0' as int + d) as char
  }

  /** `str(n)` for a natural number: its decimal digits, without leading zeros. */
  function Decimal(n: nat): (r: string)
    ensures |r| >= 1 && (n < 10 <==> |r| == 1)
    ensures forall i :: 0 <= i < |r| ==> '0' <= r[i] <= '9'
  {
    if n < 10 then [DigitChar(n)] else Decimal(n / 10) + [DigitChar(n % 10)]
  }

  /** Different numbers have different decimal representations. */
  lemma {:induction false} DecimalInjective(m: nat, n: nat)
    requires Decimal(m) == Decimal(n)
    ensures m == n
  {
    if m >= 10 && n >= 10 {
      var a, b := Decimal(m), Decimal(n);
      assert a[|a| - 1] == DigitChar(m % 10);
      assert b[|b| - 1] == DigitChar(n % 10);
      assert a[..|a| - 1] == Decimal(m / 10);
      assert b[..|b| - 1] == Decimal(n / 10);
      DecimalInjective(m / 10, n / 10);
    } else if m < 10 && n < 10 {
      assert Decimal(m)[0] == DigitChar(m);
    }
  }
}
