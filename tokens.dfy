/** The C library's strtok_r over a single delimiter character, as both path
    parsing and command-line parsing use it, together with an independent
    character-by-character definition of the pieces it yields. */
module Tokens {
  import opened Common

  /** Index of the first character at or after i that is not the delimiter. */
  function SkipDelims(s: string, i: nat, d: char): (j: nat)
    requires i <= |s|
    ensures i <= j <= |s|
    ensures forall k :: i <= k < j ==> s[k] == d
    ensures j < |s| ==> s[j] != d
    decreases |s| - i
  {
    if i == |s| || s[i] != d then i else SkipDelims(s, i + 1, d)
  }

  /** Index of the first delimiter at or after i, or the end of the string. */
  function TokenEnd(s: string, i: nat, d: char): (j: nat)
    requires i <= |s|
    ensures i <= j <= |s|
    ensures forall k :: i <= k < j ==> s[k] != d
    ensures j < |s| ==> s[j] == d
    decreases |s| - i
  {
    if i == |s| || s[i] == d then i else TokenEnd(s, i + 1, d)
  }

  /** One call of strtok_r with save position `save`: the next token (None for
      a NULL return) and the new save position, just past the delimiter that
      ended the token. */
  function StrTok(s: string, save: nat, d: char): (r: (Option<string>, nat))
    requires save <= |s|
    ensures save <= r.1 <= |s|
    ensures r.0.None? ==> r.1 == |s| && forall k :: save <= k < |s| ==> s[k] == d
    ensures r.0.Some? ==> save < r.1 && r.0.value != [] && d !in r.0.value
  {
    var start := SkipDelims(s, save, d);
    if start == |s| then (None, |s|)
    else
      var end := TokenEnd(s, start, d);
      (Some(s[start..end]), if end < |s| then end + 1 else |s|)
  }

  /** Every token strtok_r returns from position `save` on, in order. */
  function TokensFrom(s: string, save: nat, d: char): (ts: seq<string>)
    requires save <= |s|
    decreases |s| - save
  {
    match StrTok(s, save, d)
    case (None, _) => []
    case (Some(t), next) => [t] + TokensFrom(s, next, d)
  }

  /** Reference definition: split s at every d, scanning one character at a
      time; `cur` is the piece collected so far and empty pieces are dropped. */
  function SplitAcc(s: string, d: char, cur: string): seq<string>
  {
    if s == [] then (if cur == [] then [] else [cur])
    else if s[0] == d then (if cur == [] then [] else [cur]) + SplitAcc(s[1..], d, [])
    else SplitAcc(s[1..], d, cur + [s[0]])
  }

  /** The non-empty d-separated pieces of s, in order. */
  function Split(s: string, d: char): seq<string>
  {
    SplitAcc(s, d, [])
  }

  lemma {:induction false} SplitSkipsDelims(s: string, i: nat, j: nat, d: char)
    requires i <= j <= |s|
    requires forall k :: i <= k < j ==> s[k] == d
    ensures SplitAcc(s[i..], d, []) == SplitAcc(s[j..], d, [])
    decreases j - i
  {
    if i < j {
      assert s[i..][0] == d && s[i..][1..] == s[i + 1..];
      SplitSkipsDelims(s, i + 1, j, d);
    }
  }

  lemma {:induction false} SplitCollects(s: string, i: nat, j: nat, d: char, cur: string)
    requires i <= j <= |s|
    requires forall k :: i <= k < j ==> s[k] != d
    ensures SplitAcc(s[i..], d, cur) == SplitAcc(s[j..], d, cur + s[i..j])
    decreases j - i
  {
    if i == j {
      assert cur + s[i..j] == cur;
    } else {
      assert s[i..][0] == s[i] && s[i..][1..] == s[i + 1..];
      SplitCollects(s, i + 1, j, d, cur + [s[i]]);
      assert cur + [s[i]] + s[i + 1..j] == cur + s[i..j];
    }
  }

  /** strtok_r, called until it returns NULL, yields exactly the non-empty
      pieces of the string between delimiters, in order. */
  lemma {:induction false} TokensAreSplit(s: string, save: nat, d: char)
    requires save <= |s|
    ensures TokensFrom(s, save, d) == Split(s[save..], d)
    decreases |s| - save
  {
    var start := SkipDelims(s, save, d);
    SplitSkipsDelims(s, save, start, d);
    if start < |s| {
      var end := TokenEnd(s, start, d);
      SplitCollects(s, start, end, d, []);
      assert [] + s[start..end] == s[start..end];
      if end < |s| {
        assert s[end..][0] == d && s[end..][1..] == s[end + 1..];
        TokensAreSplit(s, end + 1, d);
      } else {
        assert s[end..] == [];
        assert TokensFrom(s, |s|, d) == [];
      }
    }
  }

  /** No token is empty and no token contains the delimiter. */
  lemma {:induction false} TokensWellFormed(s: string, save: nat, d: char)
    requires save <= |s|
    ensures forall t :: t in TokensFrom(s, save, d) ==> t != [] && d !in t
    decreases |s| - save
  {
    var r := StrTok(s, save, d);
    if r.0.Some? {
      TokensWellFormed(s, r.1, d);
    }
  }

  /** Splitting at a delimiter splits the two sides independently. */
  lemma {:induction false} SplitAccJoin(a: string, b: string, d: char, cur: string)
    ensures SplitAcc(a + [d] + b, d, cur) == SplitAcc(a, d, cur) + Split(b, d)
    decreases |a|
  {
    var s := a + [d] + b;
    if a == [] {
      assert s[0] == d && s[1..] == b;
    } else {
      assert s[0] == a[0] && s[1..] == a[1..] + [d] + b;
      if a[0] == d {
        SplitAccJoin(a[1..], b, d, []);
      } else {
        SplitAccJoin(a[1..], b, d, cur + [a[0]]);
      }
    }
  }

  /** A piece without delimiters is split into itself. */
  lemma {:induction false} SplitAccSingle(s: string, d: char, cur: string)
    requires d !in s && cur + s != []
    ensures SplitAcc(s, d, cur) == [cur + s]
    decreases |s|
  {
    if s == [] {
      assert cur + s == cur;
    } else {
      assert s[0] != d;
      SplitAccSingle(s[1..], d, cur + [s[0]]);
      assert cur + [s[0]] + s[1..] == cur + s;
    }
  }

  /** Splitting yields nothing exactly when nothing has been collected and
      the rest is made of delimiters only. */
  lemma {:induction false} SplitAccEmpty(s: string, d: char, cur: string)
    ensures SplitAcc(s, d, cur) == [] <==> cur == [] && forall k :: 0 <= k < |s| ==> s[k] == d
    decreases |s|
  {
    if s != [] {
      if s[0] == d {
        SplitAccEmpty(s[1..], d, []);
        if SplitAcc(s[1..], d, []) == [] {
          assert forall k :: 0 <= k < |s| ==> s[k] == d by {
            forall k | 0 <= k < |s| ensures s[k] == d {
              if k > 0 { assert s[k] == s[1..][k - 1]; }
            }
          }
        } else if cur == [] {
          var k :| 0 <= k < |s[1..]| && s[1..][k] != d;
          assert s[k + 1] != d;
        }
      } else {
        SplitAccEmpty(s[1..], d, cur + [s[0]]);
      }
    }
  }

  /** One strtok_r call from a position where `ts[k..]` are the tokens
      still to come: it returns ts[k] and leaves ts[k + 1..] to come, or
      NULL once k is past the last token. */
  method NextToken(s: string, save: nat, d: char, ghost ts: seq<string>, ghost k: nat)
    returns (tok: Option<string>, next: nat)
    requires save <= |s| && k <= |ts|
    requires TokensFrom(s, save, d) == ts[k..]
    ensures tok.Some? <==> k < |ts|
    ensures next <= |s|
    ensures k < |ts| ==> tok.value == ts[k] && TokensFrom(s, next, d) == ts[k + 1..]
  {
    var r := StrTok(s, save, d);
    tok, next := r.0, r.1;
    if k < |ts| {
      assert ts[k..] == [ts[k]] + ts[k + 1..];
    }
  }
}
