/** The text normaliser applied to every stored username, author name and
    book title: keep only alphanumeric and whitespace characters, split on
    runs of whitespace, join the words with one space, and lowercase.

    Python's `str.isalnum`, `str.isspace` and `str.lower` are modelled
    exactly over the Latin-1 range U+0000..U+00FF; characters above it are
    treated as neither alphanumeric nor whitespace. */
module Sanitizer {
  import opened Seqs

  /** `str.isspace` over Latin-1: TAB..CR, the four information separators
      U+001C..U+001F, SPACE, NEXT LINE and NO-BREAK SPACE. */
  predicate IsSpace(c: char) {
    c == ' ' || ('\t' <= c <= '\r') || ('\U{1C}' <= c <= '\U{1F}')
    || c == '\U{85}' || c == '\U{A0}'
  }

  predicate NotSpace(c: char) { !IsSpace(c) }

  /** `str.isalnum` over Latin-1: ASCII digits and letters, the feminine and
      masculine ordinals, the superscript digits, MICRO SIGN, the vulgar
      fractions, and the accented letters except the multiplication and
      division signs. */
  predicate IsAlnum(c: char) {
    ('0' <= c <= '9') || ('A' <= c <= 'Z') || ('a' <= c <= 'z')
    || c == '\U{AA}' || c == '\U{B2}' || c == '\U{B3}' || c == '\U{B5}'
    || c == '\U{B9}' || c == '\U{BA}' || ('\U{BC}' <= c <= '\U{BE}')
    || ('\U{C0}' <= c <= '\U{FF}' && c != '\U{D7}' && c != '\U{F7}')
  }

  /** The characters a sanitized string is built from. */
  predicate KeepChar(c: char) { IsAlnum(c) || IsSpace(c) }

  /** Upper-case letters of Latin-1: those that `str.lower` changes. */
  predicate IsUpper(c: char) {
    ('A' <= c <= 'Z') || ('\U{C0}' <= c <= '\U{DE}' && c != '\U{D7}')
  }

  /** `str.lower` on one Latin-1 character. */
  function Lower(c: char): (d: char)
    ensures !IsUpper(d)
    ensures IsAlnum(d) <==> IsAlnum(c)
    ensures IsSpace(d) <==> IsSpace(c)
    ensures !IsUpper(c) ==> d == c
  {
    if IsUpper(c) then (c as int + 32) as char else c
  }

  /** `str.lower` on a string. */
  function LowerAll(s: string): (r: string)
    ensures |r| == |s|
    ensures forall i :: 0 <= i < |s| ==> r[i] == Lower(s[i])
  {
    if s == [] then [] else [Lower(s[0])] + LowerAll(s[1..])
  }

  /** Lowercasing neither creates nor removes whitespace, so it commutes
      with dropping the whitespace. */
  lemma {:induction false} LowerAllNotSpace(s: string)
    ensures Filter(LowerAll(s), NotSpace) == LowerAll(Filter(s, NotSpace))
  {
    if s != [] {
      LowerAllNotSpace(s[1..]);
      assert LowerAll(s) == [Lower(s[0])] + LowerAll(s[1..]);
      FilterAppend([Lower(s[0])], LowerAll(s[1..]), NotSpace);
      var head := if NotSpace(s[0]) then [s[0]] else [];
      LowerAllAppend(head, Filter(s[1..], NotSpace));
    }
  }

  lemma {:induction false} LowerAllAppend(a: string, b: string)
    ensures LowerAll(a + b) == LowerAll(a) + LowerAll(b)
  {
    var l, m := LowerAll(a + b), LowerAll(a) + LowerAll(b);
    forall i | 0 <= i < |l|
      ensures l[i] == m[i]
    {
      if i < |a| {
        assert (a + b)[i] == a[i];
      } else {
        assert (a + b)[i] == b[i - |a|];
      }
    }
    assert l == m;
  }

  /** A string no character of which `str.lower` changes is its own
      lowercase form. */
  lemma LowerAllFixed(s: string)
    requires forall i :: 0 <= i < |s| ==> !IsUpper(s[i])
    ensures LowerAll(s) == s
  {
  }

  /** `s` without the whitespace that `str.split` skips before a word. */
  function TrimStart(s: string): (r: string)
    ensures |r| <= |s| && r == s[|s| - |r|..]
    ensures r == [] || !IsSpace(r[0])
    ensures forall i :: 0 <= i < |s| - |r| ==> IsSpace(s[i])
  {
    match FindFirst(s, NotSpace)
    case None => []
    case Some(k) => s[k..]
  }

  /** Length of the word at the front of `s`: the longest prefix without
      whitespace. */
  function WordLength(s: string): (n: nat)
    ensures n <= |s|
    ensures forall i :: 0 <= i < n ==> !IsSpace(s[i])
    ensures n < |s| ==> IsSpace(s[n])
  {
    match FindFirst(s, IsSpace)
    case None => |s|
    case Some(k) => k
  }

  /** A non-empty run of non-whitespace characters. */
  predicate IsWord(w: string) {
    |w| > 0 && forall i :: 0 <= i < |w| ==> !IsSpace(w[i])
  }

  predicate AllWords(ws: seq<string>) {
    forall k :: 0 <= k < |ws| ==> IsWord(ws[k])
  }

  /** `str.split()` with no separator: the maximal runs of non-whitespace
      characters, in order. */
  function Split(s: string): (ws: seq<string>)
    ensures AllWords(ws)
    decreases |s|
  {
    var t := TrimStart(s);
    if t == [] then []
    else
      var n := WordLength(t);
      assert IsWord(t[..n]);
      [t[..n]] + Split(t[n..])
  }

  /** `' '.join(ws)`. */
  function Join(ws: seq<string>): (r: string)
  {
    if |ws| == 0 then []
    else if |ws| == 1 then ws[0]
    else ws[0] + [' '] + Join(ws[1..])
  }

  /** The concatenation of a list of strings. */
  function Concat(ws: seq<string>): string
  {
    if ws == [] then [] else ws[0] + Concat(ws[1..])
  }

  /** The shape of a sanitized string: every whitespace character in it is
      a plain space that is neither first nor last and is followed by a
      non-whitespace character (so no leading, trailing or doubled
      spaces). */
  predicate SingleSpaced(t: string) {
    && (forall i :: 0 <= i < |t| && IsSpace(t[i]) ==> t[i] == ' ' && 0 < i < |t| - 1)
    && (forall i :: 0 <= i < |t| - 1 ==> NotTwoSpacesAt(t, i))
  }

  /** Positions `i` and `i + 1` of `t` are not both whitespace. */
  predicate NotTwoSpacesAt(t: string, i: nat)
    requires i < |t| - 1
  {
    !(IsSpace(t[i]) && IsSpace(t[i + 1]))
  }

  /** The function the normaliser computes. */
  function Sanitize(s: string): string
  {
    LowerAll(Join(Split(Filter(s, KeepChar))))
  }

  // ---------------------------------------------------------------------
  // Split and Join

  /** Skipping leading whitespace loses no non-whitespace character. */
  lemma {:induction false} TrimStartNotSpace(s: string)
    ensures Filter(TrimStart(s), NotSpace) == Filter(s, NotSpace)
  {
    if s != [] && IsSpace(s[0]) {
      TrimStartNotSpace(s[1..]);
    }
  }

  /** The front word survives dropping whitespace unchanged. */
  lemma WordNotSpace(t: string)
    ensures Filter(t, NotSpace) == t[..WordLength(t)] + Filter(t[WordLength(t)..], NotSpace)
  {
    var n := WordLength(t);
    assert t == t[..n] + t[n..];
    FilterAppend(t[..n], t[n..], NotSpace);
    FilterAll(t[..n], NotSpace);
  }

  /** Splitting loses exactly the whitespace. */
  lemma {:induction false} SplitConcat(s: string)
    ensures Concat(Split(s)) == Filter(s, NotSpace)
    decreases |s|
  {
    var t := TrimStart(s);
    TrimStartNotSpace(s);
    if t == [] {
      assert Split(s) == [];
    } else {
      var n := WordLength(t);
      WordNotSpace(t);
      SplitConcat(t[n..]);
      assert Split(s) == [t[..n]] + Split(t[n..]);
      assert Concat(Split(s)) == t[..n] + Concat(Split(t[n..]));
    }
  }

  /** Joining words with one space gives a single-spaced string, empty
      exactly when there are no words. */
  lemma {:induction false} JoinSingleSpaced(ws: seq<string>)
    requires AllWords(ws)
    ensures SingleSpaced(Join(ws))
    ensures Join(ws) == [] <==> ws == []
  {
    if |ws| >= 2 {
      var rest := Join(ws[1..]);
      JoinSingleSpaced(ws[1..]);
      var w := ws[0];
      assert IsWord(w);
      var r := w + [' '] + rest;
      assert rest != [] && !IsSpace(rest[0]);
      forall i | 0 <= i < |r| && IsSpace(r[i])
        ensures r[i] == ' ' && 0 < i < |r| - 1
      {
        if i > |w| {
          assert r[i] == rest[i - |w| - 1];
        }
      }
      forall i | 0 <= i < |r| - 1
        ensures NotTwoSpacesAt(r, i)
      {
        if i > |w| {
          assert NotTwoSpacesAt(rest, i - |w| - 1);
          assert r[i] == rest[i - |w| - 1] && r[i + 1] == rest[i - |w|];
        } else if i == |w| {
          assert r[i + 1] == rest[0];
        }
      }
    } else if |ws| == 1 {
      assert IsWord(ws[0]);
    }
  }

  /** Dropping the spaces of joined words gives their concatenation. */
  lemma {:induction false} JoinNotSpace(ws: seq<string>)
    requires AllWords(ws)
    ensures Filter(Join(ws), NotSpace) == Concat(ws)
  {
    if ws != [] {
      var w := ws[0];
      assert IsWord(w);
      FilterAll(w, NotSpace);
      assert Concat(ws) == w + Concat(ws[1..]);
      if |ws| == 1 {
        assert Concat(ws[1..]) == [];
        assert w + [] == w;
      } else {
        var rest := Join(ws[1..]);
        assert AllWords(ws[1..]);
        JoinNotSpace(ws[1..]);
        assert Join(ws) == (w + [' ']) + rest;
        FilterAppend(w + [' '], rest, NotSpace);
        FilterAppend(w, [' '], NotSpace);
        FilterNone([' '], NotSpace);
      }
    }
  }

  /** A suffix that starts on a non-whitespace character of a
      single-spaced string is single-spaced. */
  lemma SingleSpacedSuffix(t: string, k: nat)
    requires SingleSpaced(t) && k <= |t|
    requires k < |t| ==> !IsSpace(t[k])
    ensures SingleSpaced(t[k..])
  {
    var u := t[k..];
    forall i | 0 <= i < |u| && IsSpace(u[i])
      ensures u[i] == ' ' && 0 < i < |u| - 1
    {
      assert u[i] == t[k + i];
    }
    forall i | 0 <= i < |u| - 1
      ensures NotTwoSpacesAt(u, i)
    {
      assert NotTwoSpacesAt(t, k + i);
      assert u[i] == t[k + i] && u[i + 1] == t[k + i + 1];
    }
  }

  /** One separating space in front of a word makes no difference to the
      split. */
  lemma SplitSkipsSpace(t: string)
    requires |t| >= 2 && IsSpace(t[0]) && !IsSpace(t[1])
    ensures Split(t) == Split(t[1..])
  {
    assert TrimStart(t[1..]) == t[1..];
    assert TrimStart(t) == t[1..];
  }

  /** Splitting a string that starts with a word gives that word first. */
  lemma SplitFront(t: string)
    requires t != [] && !IsSpace(t[0])
    ensures Split(t) == [t[..WordLength(t)]] + Split(t[WordLength(t)..])
  {
    assert TrimStart(t) == t;
  }

  lemma JoinCons(w: string, ws: seq<string>)
    requires ws != []
    ensures Join([w] + ws) == w + [' '] + Join(ws)
  {
    assert ([w] + ws)[1..] == ws;
  }

  /** Round trip: a single-spaced string is the join of its own words. */
  lemma {:induction false} JoinSplit(t: string)
    requires SingleSpaced(t)
    ensures Join(Split(t)) == t
    decreases |t|
  {
    if t != [] {
      assert !IsSpace(t[0]);
      var n := WordLength(t);
      if n < |t| {
        var w, t' := t[..n], t[n + 1..];
        assert t[n] == ' ' && n + 1 < |t|;
        assert NotTwoSpacesAt(t, n);
        SingleSpacedSuffix(t, n + 1);
        JoinSplit(t');
        calc {
          Split(t);
        ==  { SplitFront(t); }
          [w] + Split(t[n..]);
        ==  { SplitSkipsSpace(t[n..]); assert t[n..][1..] == t'; }
          [w] + Split(t');
        }
        SplitFront(t');
        JoinCons(w, Split(t'));
        SpaceBetween(t, n);
      } else {
        SplitFront(t);
        OneWord(t);
      }
    }
  }

  lemma SpaceBetween(t: string, n: nat)
    requires n < |t| && t[n] == ' '
    ensures t == t[..n] + [' '] + t[n + 1..]
  {
  }

  lemma OneWord(t: string)
    requires t != [] && WordLength(t) == |t|
    ensures Split(t[WordLength(t)..]) == []
    ensures Join([t[..WordLength(t)]] + Split(t[WordLength(t)..])) == t
  {
    var n := WordLength(t);
    assert t[..n] == t;
    assert t[n..] == [];
    assert Split([]) == [];
    assert [t[..n]] + Split(t[n..]) == [t];
  }

  // ---------------------------------------------------------------------
  // Where the words break

  /** A string of whitespace only (possibly empty). */
  predicate Blank(g: string) {
    forall i :: 0 <= i < |g| ==> IsSpace(g[i])
  }

  /** `gaps[0] + ws[0] + gaps[1] + ... + ws[n - 1] + gaps[n]`: words laid
      out with the given whitespace around and between them. */
  function Weave(ws: seq<string>, gaps: seq<string>): string
    requires |gaps| == |ws| + 1
  {
    if ws == [] then gaps[0] else gaps[0] + ws[0] + Weave(ws[1..], gaps[1..])
  }

  /** Gaps that make each word of `ws` a maximal run: every gap is
      whitespace, and the ones between two words are not empty. */
  predicate Gaps(ws: seq<string>, gaps: seq<string>) {
    && |gaps| == |ws| + 1
    && (forall k :: 0 <= k < |gaps| ==> Blank(gaps[k]))
    && (forall k :: 0 < k < |ws| ==> gaps[k] != [])
  }

  /** A blank string has no words. */
  lemma SplitBlank(g: string)
    requires Blank(g)
    ensures Split(g) == []
  {
  }

  /** Whitespace in front of a word, or up to the end, is skipped. */
  lemma SplitSkip(s: string, k: nat)
    requires k <= |s| && forall i :: 0 <= i < k ==> IsSpace(s[i])
    requires k == |s| || !IsSpace(s[k])
    ensures Split(s) == Split(s[k..])
  {
    TrimStartAt(s, k);
    TrimStartAt(s[k..], 0);
    assert s[k..][0..] == s[k..];
  }

  /** Leading whitespace up to a non-whitespace character, or up to the
      end, is what `TrimStart` drops. */
  lemma TrimStartAt(s: string, k: nat)
    requires k <= |s| && forall i :: 0 <= i < k ==> IsSpace(s[i])
    requires k == |s| || !IsSpace(s[k])
    ensures TrimStart(s) == s[k..]
  {
    var r := TrimStart(s);
    assert r != [] ==> r[0] == s[|s| - |r|];
  }

  /** A word that ends at whitespace or at the end is the first word. */
  lemma SplitWordAt(s: string, n: nat)
    requires 0 < n <= |s| && forall i :: 0 <= i < n ==> !IsSpace(s[i])
    requires n == |s| || IsSpace(s[n])
    ensures Split(s) == [s[..n]] + Split(s[n..])
  {
    SplitFront(s);
  }

  /** The string after the first word of a woven string starts with
      whitespace or is empty. */
  lemma WeaveRest(ws: seq<string>, gaps: seq<string>)
    requires AllWords(ws) && Gaps(ws, gaps) && ws != []
    ensures var rest := Weave(ws[1..], gaps[1..]);
      rest == [] || IsSpace(rest[0])
  {
    var rest := Weave(ws[1..], gaps[1..]);
    if |ws| == 1 {
      assert rest == gaps[1];
    } else {
      assert gaps[1] != [];
      assert rest == gaps[1] + ws[1] + Weave(ws[2..], gaps[2..]);
    }
  }

  /** Whitespace in front of a word, given as a slice, is skipped. */
  lemma SplitAfterGap(s: string, g: string, t: string)
    requires Blank(g) && (t == [] || !IsSpace(t[0]))
    requires |g| <= |s| && s[..|g|] == g && s[|g|..] == t
    ensures Split(s) == Split(t)
  {
    var k := |g|;
    assert forall i :: 0 <= i < k ==> s[i] == g[i];
    assert t != [] ==> s[k] == t[0];
    SplitSkip(s, k);
  }

  /** A word followed by whitespace or nothing, given as slices, comes
      first. */
  lemma SplitWordThen(t: string, w: string, rest: string)
    requires IsWord(w) && (rest == [] || IsSpace(rest[0]))
    requires |w| <= |t| && t[..|w|] == w && t[|w|..] == rest
    ensures Split(t) == [w] + Split(rest)
  {
    var n := |w|;
    assert forall i :: 0 <= i < n ==> t[i] == w[i];
    assert rest != [] ==> t[n] == rest[0];
    SplitWordAt(t, n);
  }

  /** The front of a woven string: its first gap, then its first word, then
      the rest. */
  lemma WeaveCons(ws: seq<string>, gaps: seq<string>)
    requires |gaps| == |ws| + 1 && ws != []
    ensures var s, g, w, rest := Weave(ws, gaps), gaps[0], ws[0], Weave(ws[1..], gaps[1..]);
      && |g| <= |s| && s[..|g|] == g && s[|g|..] == w + rest
      && |w| <= |w + rest| && (w + rest)[..|w|] == w && (w + rest)[|w|..] == rest
  {
    var s, g, w, rest := Weave(ws, gaps), gaps[0], ws[0], Weave(ws[1..], gaps[1..]);
    assert s == g + (w + rest);
  }

  /** `str.split()` recovers the words of any string made of words and
      whitespace gaps between them that are not empty. */
  lemma {:induction false} SplitWeave(ws: seq<string>, gaps: seq<string>)
    requires AllWords(ws) && Gaps(ws, gaps)
    ensures Split(Weave(ws, gaps)) == ws
  {
    if ws == [] {
      SplitBlank(gaps[0]);
    } else {
      var w, rest := ws[0], Weave(ws[1..], gaps[1..]);
      assert Gaps(ws[1..], gaps[1..]);
      SplitWeave(ws[1..], gaps[1..]);
      WeaveRest(ws, gaps);
      WeaveCons(ws, gaps);
      assert IsWord(w) && Blank(gaps[0]);
      SplitAfterGap(Weave(ws, gaps), gaps[0], w + rest);
      SplitWordThen(w + rest, w, rest);
      HeadTail(ws);
    }
  }

  /** Laying out a first word and gap in front of a woven string. */
  lemma WeaveFront(w: string, ws: seq<string>, g: string, more: seq<string>)
    requires |more| == |ws| + 1
    ensures Weave([w] + ws, [g] + more) == g + w + Weave(ws, more)
  {
    assert ([w] + ws)[1..] == ws && ([g] + more)[1..] == more;
  }

  /** Putting a gap in front keeps the gaps well formed, provided the
      former first gap, now between two words, is not empty. */
  lemma GapsFront(w: string, ws: seq<string>, g: string, more: seq<string>)
    requires Blank(g) && Gaps(ws, more)
    requires ws != [] ==> more[0] != []
    ensures Gaps([w] + ws, [g] + more)
  {
    var gaps := [g] + more;
    assert forall k :: 0 < k < |gaps| ==> gaps[k] == more[k - 1];
  }

  /** A woven string that starts with whitespace and holds a word has a
      non-empty first gap. */
  lemma FirstGapNotEmpty(ws: seq<string>, gaps: seq<string>)
    requires AllWords(ws) && Gaps(ws, gaps) && ws != []
    requires Weave(ws, gaps) != [] && IsSpace(Weave(ws, gaps)[0])
    ensures gaps[0] != []
  {
    assert IsWord(ws[0]);
    assert Weave(ws, gaps) == gaps[0] + ws[0] + Weave(ws[1..], gaps[1..]);
  }

  /** The split of a string, one step: skip the leading whitespace, take
      the front word, split the rest. */
  lemma SplitStep(s: string)
    requires TrimStart(s) != []
    ensures var t := TrimStart(s);
      Split(s) == [t[..WordLength(t)]] + Split(t[WordLength(t)..])
  {
  }

  /** After the front word there is whitespace, or nothing and then no
      more words. */
  lemma AfterWord(t: string)
    ensures var rest := t[WordLength(t)..];
      Split(rest) != [] ==> rest != [] && IsSpace(rest[0])
  {
    var rest := t[WordLength(t)..];
    if rest == [] {
      SplitBlank(rest);
    }
  }

  /** Every string is the words `str.split()` returns, woven with
      whitespace gaps: each word is a maximal run of non-whitespace
      characters, preceded by whitespace or the start and followed by
      whitespace or the end. */
  lemma {:induction false} SplitGaps(s: string) returns (gaps: seq<string>)
    ensures Gaps(Split(s), gaps) && Weave(Split(s), gaps) == s
    decreases |s|
  {
    var t := TrimStart(s);
    var m := |s| - |t|;
    var lead := s[..m];
    assert Blank(lead);
    if t == [] {
      gaps := [s];
      SplitBlank(s);
    } else {
      var n := WordLength(t);
      var w, rest := t[..n], t[n..];
      var more := SplitGaps(rest);
      var ws := Split(rest);
      gaps := [lead] + more;
      SplitStep(s);
      AfterWord(t);
      if ws != [] {
        FirstGapNotEmpty(ws, more);
      }
      GapsFront(w, ws, lead, more);
      WeaveFront(w, ws, lead, more);
      SliceThree(s, m, n);
    }
  }

  /** Round trip: splitting joined words gives the words back. */
  lemma {:induction false} SplitJoin(ws: seq<string>)
    requires AllWords(ws)
    ensures Split(Join(ws)) == ws
  {
    if |ws| == 1 {
      SplitJoinOne(ws);
    } else if |ws| >= 2 {
      assert AllWords(ws[1..]);
      SplitJoin(ws[1..]);
      SplitJoinCons(ws);
    }
  }

  lemma SplitJoinOne(ws: seq<string>)
    requires AllWords(ws) && |ws| == 1
    ensures Split(Join(ws)) == ws
  {
    assert Join(ws) == ws[0] && IsWord(ws[0]);
    SplitOneWord(ws[0]);
    Single(ws);
  }

  /** A word on its own splits into itself. */
  lemma SplitOneWord(w: string)
    requires IsWord(w)
    ensures Split(w) == [w]
  {
    var none := w[|w|..];
    SplitWordAt(w, |w|);
    SplitBlank(none);
    TakeAll(w);
  }

  lemma SplitJoinCons(ws: seq<string>)
    requires AllWords(ws) && |ws| >= 2
    requires Split(Join(ws[1..])) == ws[1..]
    ensures Split(Join(ws)) == ws
  {
    var w, rest := ws[0], Join(ws[1..]);
    assert rest != [] && !IsSpace(rest[0]) by {
      assert AllWords(ws[1..]);
      JoinSingleSpaced(ws[1..]);
    }
    JoinFront(ws);
    SplitTwoWords(Join(ws), w, rest);
    HeadTail(ws);
  }

  /** Where the first word of joined words ends and the rest begins. */
  lemma JoinFront(ws: seq<string>)
    requires |ws| >= 2
    ensures var s, n := Join(ws), |ws[0]|;
      n < |s| && s[..n] == ws[0] && s[n] == ' ' && s[n + 1..] == Join(ws[1..])
  {
    assert Join(ws) == ws[0] + [' '] + Join(ws[1..]);
  }

  /** A word, one whitespace character and a word split apart there. */
  lemma SplitTwoWords(s: string, w: string, rest: string)
    requires IsWord(w) && |w| < |s| && s[..|w|] == w
    requires IsSpace(s[|w|]) && s[|w| + 1..] == rest
    requires rest != [] && !IsSpace(rest[0])
    ensures Split(s) == [w] + Split(rest)
  {
    var n := |w|;
    assert forall i :: 0 <= i < n ==> s[i] == w[i];
    SplitWordAt(s, n);
    SplitSkip(s[n..], 1);
    assert s[n..][1..] == rest;
  }

  // ---------------------------------------------------------------------
  // Properties of Sanitize

  /** Internal view of Sanitize: its un-lowercased form is single-spaced and
      loses exactly the non-alphanumeric characters when its spaces are
      dropped. */
  lemma JoinedForm(s: string)
    ensures SingleSpaced(Join(Split(Filter(s, KeepChar))))
    ensures Filter(Join(Split(Filter(s, KeepChar))), NotSpace) == Filter(s, IsAlnum)
  {
    var kept := Filter(s, KeepChar);
    var ws := Split(kept);
    JoinSingleSpaced(ws);
    assert Filter(Join(ws), NotSpace) == Filter(s, IsAlnum) by {
      JoinNotSpace(ws);
      SplitConcat(kept);
      FilterFilter(s, KeepChar, NotSpace, IsAlnum);
    }
  }

  /** Lowercasing keeps a string single-spaced. */
  lemma LowerAllSingleSpaced(t: string)
    requires SingleSpaced(t)
    ensures SingleSpaced(LowerAll(t))
  {
    var r := LowerAll(t);
    forall i | 0 <= i < |r| && IsSpace(r[i])
      ensures r[i] == ' ' && 0 < i < |r| - 1
    {
      assert IsSpace(t[i]);
    }
    forall i | 0 <= i < |r| - 1
      ensures NotTwoSpacesAt(r, i)
    {
      assert NotTwoSpacesAt(t, i);
    }
  }

  /** No leading, trailing or doubled spaces, and no whitespace other than
      the plain space. */
  lemma SanitizeSingleSpaced(s: string)
    ensures SingleSpaced(Sanitize(s))
  {
    JoinedForm(s);
    LowerAllSingleSpaced(Join(Split(Filter(s, KeepChar))));
  }

  /** Deleting the spaces of the output gives the alphanumeric characters
      of the input, lowercased, in their original order. */
  lemma SanitizeLetters(s: string)
    ensures Filter(Sanitize(s), NotSpace) == LowerAll(Filter(s, IsAlnum))
  {
    JoinedForm(s);
    LowerAllNotSpace(Join(Split(Filter(s, KeepChar))));
  }

  /** Every output character is the plain space or a lowercase
      alphanumeric; punctuation and other whitespace are gone. */
  lemma SanitizeChars(s: string)
    ensures forall i :: 0 <= i < |Sanitize(s)| ==>
      Sanitize(s)[i] == ' ' || (IsAlnum(Sanitize(s)[i]) && !IsUpper(Sanitize(s)[i]))
  {
    var r := Sanitize(s);
    SanitizeSingleSpaced(s);
    SanitizeLetters(s);
    forall i | 0 <= i < |r| && r[i] != ' '
      ensures IsAlnum(r[i]) && !IsUpper(r[i])
    {
      assert !IsSpace(r[i]);
      FilterMember(r, NotSpace, r[i]);
      var alnum := Filter(s, IsAlnum);
      var j :| 0 <= j < |alnum| && LowerAll(alnum)[j] == r[i];
      FilterMember(s, IsAlnum, alnum[j]);
    }
  }

  /** The output is already lowercase. */
  lemma SanitizeLowercase(s: string)
    ensures LowerAll(Sanitize(s)) == Sanitize(s)
  {
    SanitizeChars(s);
    LowerAllFixed(Sanitize(s));
  }

  /** The output is empty exactly when the input has no alphanumeric
      character, e.g. when it is blank or all punctuation. */
  lemma SanitizeEmpty(s: string)
    ensures Sanitize(s) == [] <==> forall i :: 0 <= i < |s| ==> !IsAlnum(s[i])
  {
    var r := Sanitize(s);
    var alnum := Filter(s, IsAlnum);
    SanitizeSingleSpaced(s);
    SanitizeLetters(s);
    if r == [] {
      assert Filter(r, NotSpace) == [];
      assert alnum == [];
      forall i | 0 <= i < |s| ensures !IsAlnum(s[i]) {
        FilterMember(s, IsAlnum, s[i]);
      }
    } else {
      assert !IsSpace(r[0]);
      FilterMember(r, NotSpace, r[0]);
      assert alnum != [];
      FilterMember(s, IsAlnum, alnum[0]);
    }
  }

  /** A single-spaced string of alphanumerics and spaces is only
      lowercased. */
  lemma SanitizeClean(t: string)
    requires SingleSpaced(t)
    requires forall i :: 0 <= i < |t| ==> KeepChar(t[i])
    ensures Sanitize(t) == LowerAll(t)
  {
    FilterAll(t, KeepChar);
    JoinSplit(t);
  }

  /** The form `Sanitize` produces: single-spaced, every character a plain
      space or a lowercase alphanumeric. */
  predicate SanitizedForm(t: string) {
    SingleSpaced(t) && forall i :: 0 <= i < |t| ==> t[i] == ' ' || (IsAlnum(t[i]) && !IsUpper(t[i]))
  }

  /** Every output is in sanitized form. */
  lemma SanitizeForm(s: string)
    ensures SanitizedForm(Sanitize(s))
  {
    SanitizeSingleSpaced(s);
    SanitizeChars(s);
  }

  /** The strings in sanitized form are exactly those `Sanitize` leaves
      unchanged. */
  lemma SanitizedFormFixed(t: string)
    ensures SanitizedForm(t) <==> Sanitize(t) == t
  {
    if SanitizedForm(t) {
      SanitizeClean(t);
      LowerAllFixed(t);
    }
    if Sanitize(t) == t {
      SanitizeForm(t);
    }
  }

  /** Sanitizing a sanitized string changes nothing. */
  lemma SanitizeIdempotent(s: string)
    ensures Sanitize(Sanitize(s)) == Sanitize(s)
  {
    SanitizeChars(s);
    SanitizeSingleSpaced(s);
    SanitizeClean(Sanitize(s));
    SanitizeLowercase(s);
  }

  // ---------------------------------------------------------------------
  // Case does not matter

  /** Each word lowercased. */
  function LowerWords(ws: seq<string>): (r: seq<string>)
    ensures |r| == |ws| && forall k :: 0 <= k < |ws| ==> r[k] == LowerAll(ws[k])
  {
    if ws == [] then [] else [LowerAll(ws[0])] + LowerWords(ws[1..])
  }

  /** Lowercasing commutes with taking a prefix or a suffix. */
  lemma LowerAllSlices(s: string, k: nat)
    requires k <= |s|
    ensures LowerAll(s[..k]) == LowerAll(s)[..k]
    ensures LowerAll(s[k..]) == LowerAll(s)[k..]
  {
    assert s == s[..k] + s[k..];
    LowerAllAppend(s[..k], s[k..]);
  }

  lemma LowerAllTwice(s: string)
    ensures LowerAll(LowerAll(s)) == LowerAll(s)
  {
    LowerAllFixed(LowerAll(s));
  }

  lemma TrimStartLower(s: string)
    ensures TrimStart(LowerAll(s)) == LowerAll(TrimStart(s))
  {
    var f := FindFirst(s, NotSpace);
    FindFirstAgree(LowerAll(s), NotSpace, s, NotSpace);
    if f.Some? {
      LowerAllSlices(s, f.value);
    }
  }

  lemma WordLengthLower(s: string)
    ensures WordLength(LowerAll(s)) == WordLength(s)
  {
    FindFirstAgree(LowerAll(s), IsSpace, s, IsSpace);
  }

  /** Lowercasing before splitting lowercases each word. */
  lemma {:induction false} SplitLower(t: string)
    ensures Split(LowerAll(t)) == LowerWords(Split(t))
    decreases |t|
  {
    var u := TrimStart(t);
    var lu := TrimStart(LowerAll(t));
    TrimStartLower(t);
    if u != [] {
      var n := WordLength(u);
      WordLengthLower(u);
      LowerAllSlices(u, n);
      SplitLower(u[n..]);
      assert Split(LowerAll(t)) == [lu[..n]] + Split(lu[n..]);
      var ws := Split(u[n..]);
      assert Split(t) == [u[..n]] + ws;
      assert ([u[..n]] + ws)[1..] == ws;
    }
  }

  /** Joining lowercased words is lowercasing the joined words. */
  lemma {:induction false} JoinLower(ws: seq<string>)
    ensures Join(LowerWords(ws)) == LowerAll(Join(ws))
  {
    if |ws| >= 2 {
      JoinLower(ws[1..]);
      assert LowerWords(ws)[1..] == LowerWords(ws[1..]);
      LowerAllAppend(ws[0] + [' '], Join(ws[1..]));
      LowerAllAppend(ws[0], [' ']);
    }
  }

  /** Lowercasing keeps every character's class, so it commutes with
      dropping the characters that are neither alphanumeric nor
      whitespace. */
  lemma {:induction false} FilterLower(s: string)
    ensures Filter(LowerAll(s), KeepChar) == LowerAll(Filter(s, KeepChar))
  {
    if s != [] {
      FilterLower(s[1..]);
      assert LowerAll(s) == [Lower(s[0])] + LowerAll(s[1..]);
      FilterAppend([Lower(s[0])], LowerAll(s[1..]), KeepChar);
      var head := if KeepChar(s[0]) then [s[0]] else [];
      LowerAllAppend(head, Filter(s[1..], KeepChar));
    }
  }

  /** Sanitizing is blind to case: a string and its lowercase form sanitize
      alike, so names that differ only in case clash. */
  lemma SanitizeIgnoresCase(s: string)
    ensures Sanitize(LowerAll(s)) == Sanitize(s)
  {
    var f := Filter(s, KeepChar);
    FilterLower(s);
    SplitLower(f);
    JoinLower(Split(f));
    LowerAllTwice(Join(Split(f)));
  }

  /** The words of the output are the words of the kept characters,
      lowercased: runs of whitespace become one space and nothing else
      moves a word boundary. */
  lemma SanitizeWords(s: string)
    ensures Split(Sanitize(s)) == LowerWords(Split(Filter(s, KeepChar)))
  {
    var ws := Split(Filter(s, KeepChar));
    SplitLower(Join(ws));
    SplitJoin(ws);
  }
}
