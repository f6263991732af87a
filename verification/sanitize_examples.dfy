/** The normaliser on inputs taken from the test-suite: a name with
    trailing spaces, a blank string and an accented book title. Each input
    is described character by character, and its output follows from the
    general lemmas of `Sanitizer`. */
module SanitizeExamples {
  import opened Seqs
  import opened Sanitizer

  /** `"user"` followed by five spaces. */
  predicate UserWithTrailingSpaces(s: string) {
    |s| == 9 && s[..4] == "user" && forall i :: 4 <= i < |s| ==> s[i] == ' '
  }

  /** Trailing spaces are trimmed. */
  lemma TrailingSpacesExample(s: string)
    requires UserWithTrailingSpaces(s)
    ensures Sanitize(s) == "user"
  {
    var w := s[..4];
    FilterAll(s, KeepChar);
    TrailingSpacesWords(s);
    SplitFront(s);
    assert Split(s[4..]) == [];
    assert Split(s) == [w];
    assert Join([w]) == w;
    LowerAllFixed(w);
  }

  lemma TrailingSpacesWords(s: string)
    requires UserWithTrailingSpaces(s)
    ensures WordLength(s) == 4 && TrimStart(s[4..]) == []
  {
    assert IsSpace(s[4]);
    assert forall j :: 0 <= j < 4 ==> !IsSpace(s[j]) by {
      forall j | 0 <= j < 4 ensures !IsSpace(s[j]) {
        assert s[j] == s[..4][j];
      }
    }
    var r := FindFirst(s, IsSpace);
    assert r.Some? && !(r.value < 4) && !(r.value > 4);
    assert FindFirst(s[4..], NotSpace) == None;
  }

  /** A blank string (six spaces) sanitizes to the empty string. */
  lemma BlankExample(s: string)
    requires |s| == 6 && forall i :: 0 <= i < |s| ==> s[i] == ' '
    ensures Sanitize(s) == ""
  {
    SanitizeEmpty(s);
  }

  /** The title "Segunda Fundação". */
  predicate AccentedTitle(s: string) {
    |s| == 16 && s[..8] == "Segunda " && s[8..] == "Funda\U{E7}\U{E3}o"
  }

  /** The title "segunda fundação". */
  predicate AccentedTitleLowered(s: string) {
    |s| == 16 && s[..8] == "segunda " && s[8..] == "funda\U{E7}\U{E3}o"
  }

  /** Letters outside ASCII are kept and lowercased like the others. */
  lemma AccentedTitleExample(s: string, t: string)
    requires AccentedTitle(s) && AccentedTitleLowered(t)
    ensures Sanitize(s) == t
  {
    AccentedTitleClean(s);
    SanitizeClean(s);
    AccentedTitleLower(s, t);
  }

  lemma AccentedTitleClean(s: string)
    requires AccentedTitle(s)
    ensures SingleSpaced(s)
    ensures forall i :: 0 <= i < |s| ==> KeepChar(s[i])
  {
    assert forall i :: 0 <= i < 8 ==> s[i] == s[..8][i];
    assert forall i :: 8 <= i < 16 ==> s[i] == s[8..][i - 8];
    forall i | 0 <= i < |s| && IsSpace(s[i]) ensures s[i] == ' ' && 0 < i < |s| - 1 { }
    forall i | 0 <= i < |s| - 1 ensures NotTwoSpacesAt(s, i) { }
  }

  lemma AccentedTitleLower(s: string, t: string)
    requires AccentedTitle(s) && AccentedTitleLowered(t)
    ensures LowerAll(s) == t
  {
    forall i | 0 <= i < 16 ensures LowerAll(s)[i] == t[i] {
      if i < 8 {
        assert s[i] == s[..8][i] && t[i] == t[..8][i];
      } else {
        assert s[i] == s[8..][i - 8] && t[i] == t[8..][i - 8];
      }
    }
  }
}
