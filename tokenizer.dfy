/** tokenize and reconstructText of processor/utils.go: the text cut into runs of
    letters and digits and single other chars, and joined back. */
module Tokenizer {

  import opened Wrappers
  import opened Text

  /** isAlnum: non-empty and made of letters and digits. */
  predicate IsAlnumWord(s: string)
  {
    |s| > 0 && forall k :: 0 <= k < |s| ==> IsAlnum(s[k])
  }

  /** The tokens of tokenize: maximal runs of letters and digits, and every other non-space
      char on its own. */
  function Tokens(s: string): (ts: seq<string>)
    decreases |s|
  {
    if |s| == 0 then []
    else if IsAlnum(s[0]) then
      var e := RunEnd(s, 0, Alnum);
      [s[..e]] + Tokens(s[e..])
    else if IsSpace(s[0]) then Tokens(s[1..])
    else [[s[0]]] + Tokens(s[1..])
  }

  /** A token tokenize can produce: a run of letters and digits, or one other non-space char. */
  predicate IsToken(t: string)
  {
    IsAlnumWord(t) || (|t| == 1 && !IsAlnum(t[0]) && !IsSpace(t[0]))
  }

  lemma {:induction false} TokensAreTokens(s: string)
    ensures forall i :: 0 <= i < |Tokens(s)| ==> IsToken(Tokens(s)[i])
    decreases |s|
  {
    if |s| > 0 {
      if IsAlnum(s[0]) {
        RunEndAll(s, 0, Alnum);
        TokensAreTokens(s[RunEnd(s, 0, Alnum)..]);
      } else {
        TokensAreTokens(s[1..]);
      }
    }
  }

  /** The tokens left to produce when the builder holds tok and rest is still to be read. */
  function Pending(tok: string, rest: string): seq<string>
  {
    if |tok| == 0 then Tokens(rest)
    else
      var e := RunEnd(rest, 0, Alnum);
      [tok + rest[..e]] + Tokens(rest[e..])
  }

  lemma RunEndCons(s: string, k: CharClass)
    requires |s| > 0 && InClass(k, s[0])
    ensures RunEnd(s, 0, k) == 1 + RunEnd(s[1..], 0, k)
  {
    var e := RunEnd(s[1..], 0, k);
    RunEndAll(s[1..], 0, k);
    RunEndUnique(s, 0, k, e + 1);
  }

  /** Reading a letter or digit extends the token being built. */
  lemma PendingAlnum(tok: string, rest: string)
    requires |rest| > 0 && IsAlnum(rest[0])
    ensures Pending(tok, rest) == Pending(tok + [rest[0]], rest[1..])
  {
    RunEndCons(rest, Alnum);
    var e := RunEnd(rest, 0, Alnum);
    assert rest[e..] == rest[1..][e - 1..];
    if |tok| == 0 {
      assert Tokens(rest) == [rest[..e]] + Tokens(rest[e..]);
      assert rest[..e] == [rest[0]] + rest[1..][..e - 1];
      assert [] + [rest[0]] == [rest[0]];
    } else {
      assert tok + rest[..e] == (tok + [rest[0]]) + rest[1..][..e - 1];
    }
  }

  /** Any other char flushes the token being built and, unless it is a space,
      becomes a token of its own. */
  lemma PendingOther(tok: string, rest: string)
    requires |rest| > 0 && !IsAlnum(rest[0])
    ensures Pending(tok, rest) == (if |tok| > 0 then [tok] else []) + (if IsSpace(rest[0]) then [] else [[rest[0]]]) + Tokens(rest[1..])
  {
    if |tok| > 0 {
      assert RunEnd(rest, 0, Alnum) == 0;
      assert rest[..0] == [] && rest[0..] == rest;
      assert tok + [] == tok;
    }
  }

  /** The tokens a non-alphanumeric char flushes keep the loop of Tokenize on course. */
  lemma FlushStep(before: seq<string>, tok: string, rest: string, after: seq<string>)
    requires |rest| > 0 && !IsAlnum(rest[0])
    requires after == (if |tok| > 0 then before + [tok] else before) + (if IsSpace(rest[0]) then [] else [[rest[0]]])
    ensures after + Tokens(rest[1..]) == before + Pending(tok, rest)
  {
    PendingOther(tok, rest);
    var flushed := (if |tok| > 0 then [tok] else []) + (if IsSpace(rest[0]) then [] else [[rest[0]]]);
    assert after == before + flushed;
    ConcatAssoc(before, flushed, Tokens(rest[1..]));
  }

  /** tokenize: a builder collects letters and digits; any other char ends the token and,
      unless it is a space, becomes a token of its own. */
  method Tokenize(text: string) returns (tokens: seq<string>)
    ensures tokens == Tokens(text)
  {
    tokens := [];
    var token := "";
    var i := 0;
    assert text[0..] == text;
    while i < |text|
      invariant i <= |text|
      invariant tokens + Pending(token, text[i..]) == Tokens(text)
    {
      var r := text[i];
      assert text[i..][1..] == text[i + 1..];
      if IsAlnum(r) {
        PendingAlnum(token, text[i..]);
        token := token + [r];
      } else {
        ghost var before, held := tokens, token;
        if |token| > 0 {
          tokens := tokens + [token];
          token := "";
        }
        if !IsSpace(r) {
          tokens := tokens + [[r]];
        }
        FlushStep(before, held, text[i..], tokens);
      }
      i := i + 1;
    }
    assert text[|text|..] == [];
    if |token| > 0 {
      assert token + text[|text|..][..0] == token;
      tokens := tokens + [token];
    }
  }

  /** The text reconstructText writes: the tokens, with a space only between two
      alphanumeric tokens. */
  function Reconstruct(ts: seq<string>): string
  {
    if |ts| == 0 then ""
    else
      var sep := if |ts| > 1 && IsAlnumWord(ts[|ts| - 2]) && IsAlnumWord(ts[|ts| - 1]) then " " else "";
      Reconstruct(ts[..|ts| - 1]) + sep + ts[|ts| - 1]
  }

  /** reconstructText, appending token by token. */
  method ReconstructText(tokens: seq<string>) returns (sb: string)
    ensures sb == Reconstruct(tokens)
  {
    sb := "";
    var i := 0;
    while i < |tokens|
      invariant i <= |tokens|
      invariant sb == Reconstruct(tokens[..i])
    {
      assert tokens[..i + 1][..i] == tokens[..i];
      if i > 0 && IsAlnumWord(tokens[i - 1]) && IsAlnumWord(tokens[i]) {
        sb := sb + " ";
      }
      sb := sb + tokens[i];
      i := i + 1;
    }
    assert tokens[..|tokens|] == tokens;
  }

  /** Tokenizing splits at a boundary where a letter or digit does not meet another one. */
  lemma {:induction false} TokensConcat(a: string, b: string)
    requires |a| == 0 || |b| == 0 || !IsAlnum(a[|a| - 1]) || !IsAlnum(b[0])
    ensures Tokens(a + b) == Tokens(a) + Tokens(b)
    decreases |a|
  {
    if |a| == 0 {
      assert a + b == b;
    } else if IsAlnum(a[0]) {
      var e := RunEnd(a, 0, Alnum);
      RunEndAll(a, 0, Alnum);
      RunEndUnique(a + b, 0, Alnum, e);
      assert (a + b)[..e] == a[..e];
      assert (a + b)[e..] == a[e..] + b;
      TokensConcat(a[e..], b);
      ConcatAssoc([a[..e]], Tokens(a[e..]), Tokens(b));
    } else {
      assert (a + b)[1..] == a[1..] + b;
      TokensConcat(a[1..], b);
      var head: seq<string> := if IsSpace(a[0]) then [] else [[a[0]]];
      ConcatAssoc(head, Tokens(a[1..]), Tokens(b));
    }
  }

  lemma TokensOfToken(t: string)
    requires IsToken(t)
    ensures Tokens(t) == [t]
  {
    if IsAlnumWord(t) {
      RunEndUnique(t, 0, Alnum, |t|);
      assert t[..|t|] == t;
      assert t[|t|..] == [];
    } else {
      assert t[1..] == [];
      assert [t[0]] == t;
    }
  }

  lemma ReconstructEnds(ts: seq<string>)
    requires |ts| > 0 && |ts[|ts| - 1]| > 0
    ensures |Reconstruct(ts)| > 0 && Reconstruct(ts)[|Reconstruct(ts)| - 1] == ts[|ts| - 1][|ts[|ts| - 1]| - 1]
  {
  }

  /** tokenize undoes reconstructText on any list of tokens it can produce,
      so tokenize(reconstructText(tokenize(s))) == tokenize(s). */
  lemma {:induction false} TokenizeReconstruct(ts: seq<string>)
    requires forall i :: 0 <= i < |ts| ==> IsToken(ts[i])
    ensures Tokens(Reconstruct(ts)) == ts
    decreases |ts|
  {
    if |ts| > 0 {
      var init := ts[..|ts| - 1];
      var last := ts[|ts| - 1];
      TokenizeReconstruct(init);
      TokensOfToken(last);
      if |ts| > 1 && IsAlnumWord(ts[|ts| - 2]) && IsAlnumWord(last) {
        TokensConcat(Reconstruct(init), " ");
        assert Tokens(" ") == [];
        TokensConcat(Reconstruct(init) + " ", last);
      } else {
        if |ts| > 1 {
          ReconstructEnds(init);
        }
        assert Reconstruct(init) + "" + last == Reconstruct(init) + last;
        TokensConcat(Reconstruct(init), last);
      }
      assert init + [last] == ts;
    }
  }

  lemma RetokenizeRoundTrip(s: string)
    ensures Tokens(Reconstruct(Tokens(s))) == Tokens(s)
  {
    TokensAreTokens(s);
    TokenizeReconstruct(Tokens(s));
  }
}
