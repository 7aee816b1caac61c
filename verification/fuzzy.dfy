/** Case folding and the fuzzy subsequence matcher of the package list
    (`to_lower` and `fuzzy_match` in src/main.cpp). */
module Fuzzy {
  import opened Ascii

  /** The string with every character folded by `std::tolower`. */
  function Lower(s: string): (r: string)
    ensures |r| == |s|
    ensures forall i :: 0 <= i < |s| ==> r[i] == LowerChar(s[i])
  {
    if s == [] then [] else [LowerChar(s[0])] + Lower(s[1..])
  }

  /** `to_lower`: builds the folded copy one character at a time. */
  method ToLower(s: string) returns (out: string)
    ensures out == Lower(s)
  {
    out := [];
    for i := 0 to |s|
      invariant |out| == i
      invariant forall k :: 0 <= k < i ==> out[k] == LowerChar(s[k])
    {
      out := out + [LowerChar(s[i])];
    }
  }

  /** `p` occurs in `t` as a subsequence: each character of `p` is found in
      `t`, in order, each after the one found for its predecessor. */
  predicate Subsequence(p: string, t: string)
    decreases |t|
  {
    if p == [] then true
    else if t == [] then false
    else if p[0] == t[0] then Subsequence(p[1..], t[1..])
    else Subsequence(p, t[1..])
  }

  /** A pattern longer than the text is never a subsequence of it. */
  lemma {:induction false} SubsequenceNoLonger(p: string, t: string)
    ensures Subsequence(p, t) ==> |p| <= |t|
    decreases |t|
  {
    if p != [] && t != [] {
      if p[0] == t[0] {
        SubsequenceNoLonger(p[1..], t[1..]);
      } else {
        SubsequenceNoLonger(p, t[1..]);
      }
    }
  }

  /** An independent description of the same relation: `idx` lists, for each
      character of `p`, a position of `t` holding it, strictly increasing. */
  predicate IsEmbedding(p: string, t: string, idx: seq<int>) {
    && |idx| == |p|
    && (forall k :: 0 <= k < |idx| ==> 0 <= idx[k] < |t| && t[idx[k]] == p[k])
    && (forall j, k :: 0 <= j < k < |idx| ==> idx[j] < idx[k])
  }

  function Shift(idx: seq<int>, d: int): (r: seq<int>)
    ensures |r| == |idx| && forall k :: 0 <= k < |idx| ==> r[k] == idx[k] + d
  {
    seq(|idx|, k requires 0 <= k < |idx| => idx[k] + d)
  }

  /** The positions the greedy scan picks, as a witness of an embedding. */
  function Embedding(p: string, t: string): (idx: seq<int>)
    requires Subsequence(p, t)
    ensures IsEmbedding(p, t, idx)
    decreases |t|
  {
    if p == [] then []
    else if p[0] == t[0] then [0] + Shift(Embedding(p[1..], t[1..]), 1)
    else Shift(Embedding(p, t[1..]), 1)
  }

  lemma {:induction false} EmbeddingGivesSubsequence(p: string, t: string, idx: seq<int>)
    requires IsEmbedding(p, t, idx)
    ensures Subsequence(p, t)
    decreases |t|
  {
    if p != [] {
      assert 0 <= idx[0] < |t|;
      if p[0] == t[0] {
        var tail := Shift(idx[1..], -1);
        assert forall k :: 1 <= k < |idx| ==> idx[0] < idx[k];
        assert IsEmbedding(p[1..], t[1..], tail);
        EmbeddingGivesSubsequence(p[1..], t[1..], tail);
      } else {
        assert idx[0] != 0;
        var tail := Shift(idx, -1);
        assert forall k :: 0 <= k < |tail| ==> idx[0] <= idx[k];
        assert IsEmbedding(p, t[1..], tail);
        EmbeddingGivesSubsequence(p, t[1..], tail);
      }
    }
  }

  /** The recursive definition and the positional one agree. */
  lemma SubsequenceIffEmbedding(p: string, t: string)
    ensures Subsequence(p, t) <==> exists idx :: IsEmbedding(p, t, idx)
  {
    if Subsequence(p, t) {
      var w := Embedding(p, t);
    }
    if exists idx :: IsEmbedding(p, t, idx) {
      var idx :| IsEmbedding(p, t, idx);
      EmbeddingGivesSubsequence(p, t, idx);
    }
  }

  /** `p[i..]` is a subsequence of `t[j..]`, followed by index instead of
      by slicing. */
  predicate SubsequenceFrom(p: string, t: string, i: nat, j: nat)
    requires i <= |p| && j <= |t|
    decreases |t| - j
  {
    if i == |p| then true
    else if j == |t| then false
    else if p[i] == t[j] then SubsequenceFrom(p, t, i + 1, j + 1)
    else SubsequenceFrom(p, t, i, j + 1)
  }

  lemma {:induction false} SubsequenceFromSlices(p: string, t: string, i: nat, j: nat)
    requires i <= |p| && j <= |t|
    ensures SubsequenceFrom(p, t, i, j) == Subsequence(p[i..], t[j..])
    decreases |t| - j
  {
    if i < |p| && j < |t| {
      assert p[i..][1..] == p[i + 1..] && t[j..][1..] == t[j + 1..];
      if p[i] == t[j] {
        SubsequenceFromSlices(p, t, i + 1, j + 1);
      } else {
        SubsequenceFromSlices(p, t, i, j + 1);
      }
    }
  }

  /** `fuzzy_match`: an empty pattern matches everything; otherwise a greedy
      cursor `ti` walks forward through the folded text looking for each
      folded pattern character in turn. */
  method FuzzyMatch(pattern: string, text: string) returns (matched: bool)
    ensures pattern == [] ==> matched
    ensures matched <==> Subsequence(Lower(pattern), Lower(text))
  {
    if |pattern| == 0 {
      return true;
    }
    var p := ToLower(pattern);
    var t := ToLower(text);
    var ti := 0;
    SubsequenceFromSlices(p, t, 0, 0);
    assert p[0..] == p && t[0..] == t;
    for i := 0 to |p|
      invariant 0 <= ti <= |t|
      invariant Subsequence(p, t) == SubsequenceFrom(p, t, i, ti)
    {
      var pc := p[i];
      var found := false;
      while ti < |t|
        invariant 0 <= ti <= |t|
        invariant Subsequence(p, t) == SubsequenceFrom(p, t, i, ti)
        decreases |t| - ti
      {
        if t[ti] == pc {
          found := true;
          ti := ti + 1;
          break;
        }
        ti := ti + 1;
      }
      if !found {
        return false;
      }
    }
    return true;
  }

  /** Folding leaves a string without upper-case letters as it is. */
  lemma LowerKeepsLowercase(s: string)
    requires forall i :: 0 <= i < |s| ==> !('A' <= s[i] <= 'Z')
    ensures Lower(s) == s
  {
  }

  /** Matching is not a substring test: "pkg5" matches every name
      "package-<d>" whose suffix holds a '5' anywhere. */
  lemma Pkg5MatchesPackageNames(pattern: string, name: string, d: string, j: nat)
    requires pattern == "pkg5" && name == "package-" + d
    requires j < |d| && d[j] == '5'
    ensures Subsequence(Lower(pattern), Lower(name))
  {
    LowerKeepsLowercase(pattern);
    assert name[0] == 'p' && name[3] == 'k' && name[5] == 'g' && name[8 + j] == '5';
    var t := Lower(name);
    assert t[0] == 'p' && t[3] == 'k' && t[5] == 'g' && t[8 + j] == '5';
    EmbeddingGivesSubsequence(pattern, t, [0, 3, 5, 8 + j]);
  }

  /** A text lacking one of the pattern's characters is not matched. */
  lemma Pkg5RejectsPackage4(pattern: string, name: string)
    requires pattern == "pkg5" && name == "package-4"
    ensures !Subsequence(Lower(pattern), Lower(name))
  {
    LowerKeepsLowercase(pattern);
    LowerKeepsLowercase(name);
    MissingCharRejects(pattern, name, 3);
  }

  /** A pattern character that occurs nowhere in the text rules the match out. */
  lemma {:induction false} MissingCharRejects(p: string, t: string, k: nat)
    requires k < |p| && forall i :: 0 <= i < |t| ==> t[i] != p[k]
    ensures !Subsequence(p, t)
    decreases |t|
  {
    if t != [] && p[0] != t[0] {
      MissingCharRejects(p, t[1..], k);
    } else if t != [] && k > 0 {
      MissingCharRejects(p[1..], t[1..], k - 1);
    }
  }
}
