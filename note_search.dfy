/** The search view of EnhancedNotes (`filteredNotes`): the notes whose
    lower-cased title or content contains the lower-cased search term.
    `toLowerCase` is modelled on ASCII letters only. */
module NoteSearch {
  import opened SeqFilter
  import opened NoteStore

  /** ASCII `toLowerCase` of one character. */
  function LowerChar(c: char): (r: char)
    ensures !('A' <= r <= 'Z')
    ensures 'A' <= c <= 'Z' ==> 'a' <= r <= 'z' && r as int - 'a' as int == c as int - 'A' as int
    ensures !('A' <= c <= 'Z') ==> r == c
  {
    if 'A' <= c <= 'Z' then (c as int + 32) as char else c
  }

  /** Two characters that differ at most in ASCII case: equal, or an
      upper-case letter and its own lower-case letter. */
  predicate SameIgnoringCase(a: char, b: char) {
    a == b ||
    ('A' <= a <= 'Z' && b as int == a as int - 'A' as int + 'a' as int) ||
    ('A' <= b <= 'Z' && a as int == b as int - 'A' as int + 'a' as int)
  }

  /** Two characters fold to the same character exactly when they differ
      at most in case. */
  lemma LowerCharEqIff(a: char, b: char)
    ensures LowerChar(a) == LowerChar(b) <==> SameIgnoringCase(a, b)
  {
  }

  /** `String.prototype.toLowerCase`, ASCII letters only. */
  function ToLower(s: string): (r: string)
    ensures |r| == |s|
    ensures forall i :: 0 <= i < |r| ==> !('A' <= r[i] <= 'Z')
    ensures forall i :: 0 <= i < |s| ==> r[i] == LowerChar(s[i])
  {
    seq(|s|, i requires 0 <= i < |s| => LowerChar(s[i]))
  }

  /** `s.includes(sub)`: `sub` occurs in `s` at some position. */
  function Includes(s: string, sub: string): (r: bool)
    ensures r ==> |sub| <= |s|
    ensures sub == [] ==> r
    decreases |s|
  {
    if |sub| > |s| then false
    else if s[..|sub|] == sub then true
    else Includes(s[1..], sub)
  }

  /** `sub` stands in `s` at offset `i`. */
  predicate OccursAt(s: string, sub: string, i: int) {
    0 <= i <= |s| - |sub| && s[i..i + |sub|] == sub
  }

  /** `includes` agrees with its declarative reading: there is an offset at
      which `sub` stands in `s`. */
  lemma {:induction false} IncludesIff(s: string, sub: string)
    ensures Includes(s, sub) <==> exists i :: OccursAt(s, sub, i)
    decreases |s|
  {
    if |sub| <= |s| && s[..|sub|] != sub {
      IncludesIff(s[1..], sub);
      if exists i :: OccursAt(s, sub, i) {
        var i :| OccursAt(s, sub, i);
        assert i > 0;
        assert s[1..][i - 1..i - 1 + |sub|] == s[i..i + |sub|];
        assert OccursAt(s[1..], sub, i - 1);
      }
      if exists i :: OccursAt(s[1..], sub, i) {
        var i :| OccursAt(s[1..], sub, i);
        assert s[1..][i..i + |sub|] == s[i + 1..i + 1 + |sub|];
        assert OccursAt(s, sub, i + 1);
      }
    } else if |sub| <= |s| {
      assert OccursAt(s, sub, 0);
    }
  }

  /** The empty string is included in every string. */
  lemma IncludesEmpty(s: string)
    ensures Includes(s, "")
  {
  }

  /** The filter's predicate: the note matches the search term. */
  predicate Matches(term: string, note: Note)
    ensures term == [] ==> Matches(term, note)
    ensures Matches(term, note) ==> |term| <= |note.title| || |term| <= |note.content|
  {
    Includes(ToLower(note.title), ToLower(term)) ||
    Includes(ToLower(note.content), ToLower(term))
  }

  function MatchesTerm(term: string): Note -> bool {
    (n: Note) => Matches(term, n)
  }

  /** `filteredNotes`: the matching notes, in the store's order. */
  function FilteredNotes(notes: seq<Note>, term: string): (r: seq<Note>)
    ensures |r| <= |notes|
    ensures forall n :: n in r ==> n in notes && Matches(term, n)
  {
    Filter(notes, MatchesTerm(term))
  }

  /** The view never reorders or invents notes: it is a subsequence of the
      store, so never longer. */
  lemma SearchIsSubsequence(notes: seq<Note>, term: string)
    ensures IsSubsequence(FilteredNotes(notes, term), notes)
    ensures |FilteredNotes(notes, term)| <= |notes|
  {
    FilterIsSubsequence(notes, MatchesTerm(term));
  }

  /** A note is shown exactly when it is in the store and its lower-cased
      title or content contains the lower-cased term; a matching note is
      shown as many times as the store holds it. */
  lemma SearchKeepsExactlyMatches(notes: seq<Note>, term: string, note: Note)
    ensures note in FilteredNotes(notes, term) <==>
      note in notes &&
      (Includes(ToLower(note.title), ToLower(term)) || Includes(ToLower(note.content), ToLower(term)))
    ensures multiset(FilteredNotes(notes, term))[note] ==
      if Matches(term, note) then multiset(notes)[note] else 0
  {
    FilterMembership(notes, MatchesTerm(term), note);
    FilterCount(notes, MatchesTerm(term), note);
  }

  /** An empty search term shows the whole store, in order. */
  lemma SearchEmptyTermShowsAll(notes: seq<Note>)
    ensures FilteredNotes(notes, "") == notes
  {
    forall n | n in notes
      ensures MatchesTerm("")(n)
    {
      assert ToLower("") == "";
      IncludesEmpty(ToLower(n.title));
    }
    FilterAll(notes, MatchesTerm(""));
  }

  /** A term that no note matches shows nothing. */
  lemma SearchNoMatchIsEmpty(notes: seq<Note>, term: string)
    requires forall n :: n in notes ==> !Matches(term, n)
    ensures FilteredNotes(notes, term) == []
  {
    FilterNone(notes, MatchesTerm(term));
  }

  /** Two strings fold to the same string exactly when they have the same
      length and differ position by position at most in case. */
  lemma ToLowerEqIff(s: string, t: string)
    ensures ToLower(s) == ToLower(t) <==>
      |s| == |t| && forall i :: 0 <= i < |s| ==> SameIgnoringCase(s[i], t[i])
  {
    if |s| == |t| {
      forall i | 0 <= i < |s|
        ensures LowerChar(s[i]) == LowerChar(t[i]) <==> SameIgnoringCase(s[i], t[i])
      {
        LowerCharEqIff(s[i], t[i]);
      }
      if ToLower(s) == ToLower(t) {
        assert forall i :: 0 <= i < |s| ==> ToLower(s)[i] == ToLower(t)[i];
      }
    }
  }

  /** Lower-casing is idempotent. */
  lemma ToLowerIdempotent(s: string)
    ensures ToLower(ToLower(s)) == ToLower(s)
  {
  }

  /** The search is case-insensitive: two terms with the same lower-case
      form show the same notes. */
  lemma SearchCaseInsensitive(notes: seq<Note>, term: string, other: string)
    requires ToLower(term) == ToLower(other)
    ensures FilteredNotes(notes, term) == FilteredNotes(notes, other)
  {
    FilterCongruent(notes, MatchesTerm(term), MatchesTerm(other));
  }

  /** Searching "meet" finds a note titled "Meeting". */
  lemma SearchFindsMeeting(note: Note)
    requires note.title == "Meeting"
    ensures FilteredNotes([note], "meet") == [note]
  {
  }
}
