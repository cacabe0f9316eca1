/** strings.Join(strings.Fields(text), " "): the whitespace normalisation that the token-based
    passes end with, and the shape of text that joins space-free words with single spaces. */
module Spaced {

  import opened Text

  /** A non-empty word with no whitespace, as strings.Fields returns them. */
  predicate IsField(w: string)
  {
    |w| > 0 && forall k :: 0 <= k < |w| ==> !IsSpace(w[k])
  }

  predicate AllFields(ws: seq<string>)
  {
    forall i :: 0 <= i < |ws| ==> IsField(ws[i])
  }

  /** The only whitespace is a single ' ' between two non-space chars: no leading or trailing
      whitespace, no runs, no newlines or tabs. */
  predicate SingleSpaced(r: string)
  {
    forall k :: 0 <= k < |r| && IsSpace(r[k]) ==> r[k] == ' ' && 0 < k < |r| - 1 && !IsSpace(r[k - 1]) && !IsSpace(r[k + 1])
  }

  /** Words without whitespace joined by single spaces are single-spaced. */
  lemma {:induction false} JoinSingleSpaced(ws: seq<string>)
    requires AllFields(ws)
    ensures SingleSpaced(Join(ws, " "))
    ensures |ws| > 0 ==> |Join(ws, " ")| > 0 && !IsSpace(Join(ws, " ")[0])
    decreases |ws|
  {
    if |ws| > 1 {
      var w, t := ws[0], Join(ws[1..], " ");
      JoinSingleSpaced(ws[1..]);
      var r := w + " " + t;
      assert Join(ws, " ") == r;
      forall k | 0 <= k < |r| && IsSpace(r[k])
        ensures r[k] == ' ' && 0 < k < |r| - 1 && !IsSpace(r[k - 1]) && !IsSpace(r[k + 1])
      {
        if k > |w| {
          assert r[k] == t[k - |w| - 1];
          assert r[k - 1] == t[k - |w| - 2];
          assert r[k + 1] == t[k - |w|];
        } else if k == |w| {
          assert r[k - 1] == w[|w| - 1];
          assert r[k + 1] == t[0];
        }
      }
    }
  }

  /** A run of chars of one class is found at the same place in a text with a prefix cut off. */
  lemma {:induction false} RunEndDrop(s: string, i: nat, k: CharClass, d: nat)
    requires d <= i <= |s|
    ensures RunEnd(s, i, k) == d + RunEnd(s[d..], i - d, k)
    decreases |s| - i
  {
    if i < |s| && InClass(k, s[i]) {
      RunEndDrop(s, i + 1, k, d);
    }
  }

  /** One step of strings.Fields: the first field, then the fields of what follows it. */
  lemma FieldsUnfold(s: string, a: nat, b: nat)
    requires a == RunEnd(s, 0, Space) && b == RunEnd(s, a, NonSpace)
    ensures a == |s| ==> Fields(s) == []
    ensures a < |s| ==> Fields(s) == [s[a..b]] + Fields(s[b..])
  {
  }

  /** With a leading space cut off, the first field starts and ends one char earlier. */
  lemma DropSpaceBounds(s: string)
    requires |s| > 0 && IsSpace(s[0])
    ensures RunEnd(s, 0, Space) == RunEnd(s[1..], 0, Space) + 1
    ensures RunEnd(s, RunEnd(s, 0, Space), NonSpace) == RunEnd(s[1..], RunEnd(s[1..], 0, Space), NonSpace) + 1
  {
    RunEndDrop(s, 1, Space, 1);
    RunEndDrop(s, RunEnd(s, 0, Space), NonSpace, 1);
  }

  /** Slices of s[1..] are the slices of s one char further on. */
  lemma DropSlices(s: string, a: nat, b: nat)
    requires a <= b < |s|
    ensures s[a + 1..b + 1] == s[1..][a..b]
    ensures s[b + 1..] == s[1..][b..]
  {
    var t := s[1..];
    assert t == s[1..|s|];
    SliceOfSlice(s, 1, |s|, a, b);
    SliceOfSlice(s, 1, |s|, b, |s| - 1);
    assert t[b..] == t[b..|s| - 1];
    assert s[b + 1..] == s[b + 1..|s|];
  }

  /** A leading space does not change the fields. */
  lemma FieldsDropSpace(s: string)
    requires |s| > 0 && IsSpace(s[0])
    ensures Fields(s) == Fields(s[1..])
  {
    var t := s[1..];
    DropSpaceBounds(s);
    var a, a' := RunEnd(s, 0, Space), RunEnd(t, 0, Space);
    var b, b' := RunEnd(s, a, NonSpace), RunEnd(t, a', NonSpace);
    FieldsUnfold(s, a, b);
    FieldsUnfold(t, a', b');
    if a < |s| {
      DropSlices(s, a', b');
      var w, rest := s[a..b], s[b..];
      assert w == t[a'..b'] && rest == t[b'..];
      assert Fields(s) == [w] + Fields(rest);
    }
  }

  /** The fields of a word followed by a space and more text: the word, then the fields of
      the rest. */
  lemma FieldsOfWord(w: string, t: string)
    requires IsField(w)
    ensures |t| == 0 ==> Fields(w + t) == [w]
    ensures |t| > 0 && IsSpace(t[0]) ==> Fields(w + t) == [w] + Fields(t[1..])
  {
    var s := w + t;
    assert RunEnd(s, 0, Space) == 0;
    if |t| > 0 && IsSpace(t[0]) {
      assert forall j :: 0 <= j < |w| ==> InClass(NonSpace, s[j]) by {
        forall j | 0 <= j < |w| ensures InClass(NonSpace, s[j]) {
          assert s[j] == w[j];
        }
      }
      RunEndUnique(s, 0, NonSpace, |w|);
      assert s[..|w|] == w;
      assert s[|w|..] == t;
      FieldsDropSpace(t);
    } else if |t| == 0 {
      assert forall j :: 0 <= j < |w| ==> InClass(NonSpace, s[j]) by {
        forall j | 0 <= j < |w| ensures InClass(NonSpace, s[j]) {
          assert s[j] == w[j];
        }
      }
      RunEndUnique(s, 0, NonSpace, |w|);
      assert s[..|w|] == w && s[|w|..] == [];
      assert RunEnd(s[|w|..], 0, Space) == 0;
    }
  }

  /** Splitting single-space-joined words into fields gives the words back. */
  lemma {:induction false} FieldsOfJoin(ws: seq<string>)
    requires AllFields(ws)
    ensures Fields(Join(ws, " ")) == ws
    decreases |ws|
  {
    if |ws| == 0 {
      assert RunEnd([], 0, Space) == 0;
    } else if |ws| == 1 {
      FieldsOfWord(ws[0], []);
      assert ws[0] + [] == ws[0];
    } else {
      FieldsOfJoin(ws[1..]);
      var t := Join(ws[1..], " ");
      assert Join(ws, " ") == ws[0] + (" " + t);
      FieldsOfWord(ws[0], " " + t);
      assert (" " + t)[1..] == t;
    }
  }

  /** The final clean-up of ProcessText: strings.Join(strings.Fields(text), " "). */
  function Normalized(text: string): (r: string)
  {
    Join(Fields(text), " ")
  }

  /** The output has single spaces only, and normalising again changes nothing. */
  lemma NormalizedClean(text: string)
    ensures SingleSpaced(Normalized(text))
    ensures Normalized(Normalized(text)) == Normalized(text)
  {
    JoinSingleSpaced(Fields(text));
    FieldsOfJoin(Fields(text));
  }
}
