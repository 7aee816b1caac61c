/** The string helpers of the pacman adapter (`trim`, `starts_with` and
    `split_dep_list` in src/PacmanPackageManager.cpp). */
module PacmanText {
  import opened Ascii

  /** The first position at or after `i` that is not whitespace, or `|s|`. */
  function SkipSpaces(s: string, i: nat): (n: nat)
    requires i <= |s|
    ensures i <= n <= |s|
    ensures forall k :: i <= k < n ==> IsSpace(s[k])
    ensures n < |s| ==> !IsSpace(s[n])
    decreases |s| - i
  {
    if i == |s| || !IsSpace(s[i]) then i else SkipSpaces(s, i + 1)
  }

  /** Walking back from `j`, the end of the last non-whitespace character,
      never going below `start`. */
  function SkipSpacesBack(s: string, start: nat, j: nat): (n: nat)
    requires start <= j <= |s|
    ensures start <= n <= j
    ensures forall k :: n <= k < j ==> IsSpace(s[k])
    ensures n > start ==> !IsSpace(s[n - 1])
    decreases j
  {
    if j == start || !IsSpace(s[j - 1]) then j else SkipSpacesBack(s, start, j - 1)
  }

  /** Where the trimmed text of `s` begins. */
  function TrimStart(s: string): nat {
    SkipSpaces(s, 0)
  }

  /** `s` without its leading and trailing whitespace. */
  function Trimmed(s: string): (r: string)
    ensures TrimStart(s) + |r| <= |s| && r == s[TrimStart(s)..TrimStart(s) + |r|]
  {
    s[TrimStart(s)..SkipSpacesBack(s, TrimStart(s), |s|)]
  }

  /** `Trimmed(s)` is the stretch of `s` between its leading and trailing
      whitespace: it starts and ends with a non-space, everything before it
      is whitespace, and it keeps every non-space character of `s`. */
  lemma TrimmedShape(s: string)
    ensures TrimStart(s) + |Trimmed(s)| <= |s|
    ensures Trimmed(s) == s[TrimStart(s)..TrimStart(s) + |Trimmed(s)|]
    ensures forall i :: 0 <= i < TrimStart(s) ==> IsSpace(s[i])
    ensures Trimmed(s) != [] ==> !IsSpace(Trimmed(s)[0]) && !IsSpace(Trimmed(s)[|Trimmed(s)| - 1])
    ensures forall i :: 0 <= i < |s| && !IsSpace(s[i]) ==>
      TrimStart(s) <= i < TrimStart(s) + |Trimmed(s)|
  {
  }

  /** Trimming twice is trimming once. */
  lemma TrimIdempotent(s: string)
    ensures Trimmed(Trimmed(s)) == Trimmed(s)
  {
    TrimKeepsUnpadded(Trimmed(s));
  }

  /** Only an all-whitespace string trims to "". */
  lemma TrimEmptyIffAllSpace(s: string)
    ensures Trimmed(s) == [] <==> forall i :: 0 <= i < |s| ==> IsSpace(s[i])
  {
    TrimmedShape(s);
  }

  /** A string with no whitespace at either end trims to itself. */
  lemma TrimKeepsUnpadded(s: string)
    requires s != [] ==> !IsSpace(s[0]) && !IsSpace(s[|s| - 1])
    ensures Trimmed(s) == s
  {
  }

  /** A value after one separating space trims back to itself. */
  lemma TrimAfterSpace(value: string)
    requires value != [] ==> !IsSpace(value[0]) && !IsSpace(value[|value| - 1])
    ensures Trimmed(" " + value) == value
  {
    var s := " " + value;
    assert SkipSpaces(s, 1) == 1;
    assert SkipSpacesBack(s, 1, |s|) == |s|;
    assert s[1..] == value;
  }

  /** `trim`: `start` skips leading whitespace, then `end` walks back over
      trailing whitespace, never past `start`. */
  method Trim(s: string) returns (r: string)
    ensures r == Trimmed(s)
  {
    var start := 0;
    while start < |s| && IsSpace(s[start])
      invariant 0 <= start <= |s|
      invariant SkipSpaces(s, start) == TrimStart(s)
    {
      start := start + 1;
    }
    var end := |s|;
    while end > start && IsSpace(s[end - 1])
      invariant start <= end <= |s|
      invariant SkipSpacesBack(s, start, end) == SkipSpacesBack(s, start, |s|)
    {
      end := end - 1;
    }
    r := s[start..end];
  }

  /** `starts_with`: `s` is at least as long as `prefix` and its first
      `|prefix|` characters compare equal to it. */
  function StartsWith(s: string, prefix: string): (b: bool)
    ensures b <==> exists rest :: s == prefix + rest
  {
    if |s| >= |prefix| && s[..|prefix|] == prefix then
      assert s == prefix + s[|prefix|..];
      true
    else
      false
  }

  /** Character by character, `s` agrees with `prefix` on its length. */
  lemma StartsWithIffAgrees(s: string, prefix: string)
    ensures StartsWith(s, prefix) <==>
      (|s| >= |prefix| && forall i :: 0 <= i < |prefix| ==> s[i] == prefix[i])
  {
    if |s| >= |prefix| && forall i :: 0 <= i < |prefix| ==> s[i] == prefix[i] {
      assert s[..|prefix|] == prefix;
    }
  }

  /** Position of the first `c` in `s` (`std::string::find`). */
  function Find(s: string, c: char): (i: nat)
    requires c in s
    ensures i < |s| && s[i] == c
    ensures forall j :: 0 <= j < i ==> s[j] != c
  {
    FindFrom(s, c, 0)
  }

  /** The first position at or after `from` holding `c`. */
  function FindFrom(s: string, c: char, from: nat): (i: nat)
    requires exists k :: from <= k < |s| && s[k] == c
    ensures from <= i < |s| && s[i] == c
    ensures forall j :: from <= j < i ==> s[j] != c
    decreases |s| - from
  {
    if s[from] == c then from else FindFrom(s, c, from + 1)
  }

  /** `s` cut at every space, empty pieces included. */
  function Pieces(s: string): (p: seq<string>)
    ensures |p| >= 1
    ensures forall k :: 0 <= k < |p| ==> ' ' !in p[k]
  {
    if s == [] then [[]]
    else
      var rest := Pieces(s[1..]);
      if s[0] == ' ' then [[]] + rest else [[s[0]] + rest[0]] + rest[1..]
  }

  /** The pieces joined back with single spaces. */
  function JoinSpaces(p: seq<string>): string
    requires |p| >= 1
  {
    if |p| == 1 then p[0] else p[0] + " " + JoinSpaces(p[1..])
  }

  /** Cutting at spaces loses nothing: joining the pieces gives `s` back. */
  lemma {:induction false} PiecesJoin(s: string)
    ensures JoinSpaces(Pieces(s)) == s
  {
    if s != [] {
      PiecesJoin(s[1..]);
      var rest := Pieces(s[1..]);
      if s[0] != ' ' {
        var p := Pieces(s);
        assert p[1..] == rest[1..];
        if |rest| > 1 {
          assert JoinSpaces(rest) == rest[0] + " " + JoinSpaces(rest[1..]);
        }
      }
    }
  }

  /** The tokens `std::getline(ss, token, ' ')` yields: the pieces, except
      that a final empty piece is not read (so "" yields none). */
  function GetlineTokens(raw: string): (tokens: seq<string>)
    ensures forall k :: 0 <= k < |tokens| ==> ' ' !in tokens[k]
  {
    var p := Pieces(raw);
    if p[|p| - 1] == [] then p[..|p| - 1] else p
  }

  /** The characters a dependency name is made of. */
  predicate IsNameChar(c: char) {
    IsAlnum(c) || c == '@' || c == '_' || c == '-' || c == '.'
  }

  predicate IsName(s: string) {
    s != [] && forall i :: 0 <= i < |s| ==> IsNameChar(s[i])
  }

  /** Length of the longest prefix of `s` made of name characters. */
  function NamePrefixLength(s: string): (n: nat)
    ensures n <= |s|
    ensures forall i :: 0 <= i < n ==> IsNameChar(s[i])
    ensures n < |s| ==> !IsNameChar(s[n])
  {
    if s == [] || !IsNameChar(s[0]) then 0 else 1 + NamePrefixLength(s[1..])
  }

  /** What one token contributes: trimmed, skipped when empty or a bare
      comma, one trailing comma dropped, then cut to its longest name
      prefix, which is kept only when non-empty. */
  function DepName(token: string): (names: seq<string>)
    ensures |names| <= 1
    ensures forall k :: 0 <= k < |names| ==> IsName(names[k])
  {
    var t := Trimmed(token);
    if t == [] || t == "," then []
    else
      var u := if t[|t| - 1] == ',' then t[..|t| - 1] else t;
      var name := u[..NamePrefixLength(u)];
      if name == [] then [] else [name]
  }

  /** The names of a token sequence, in token order. */
  function DepNames(tokens: seq<string>): (names: seq<string>)
    ensures |names| <= |tokens|
    ensures forall k :: 0 <= k < |names| ==> IsName(names[k])
  {
    if tokens == [] then []
    else DepNames(tokens[..|tokens| - 1]) + DepName(tokens[|tokens| - 1])
  }

  /** The dependency names of a raw "Depends On" / "Required By" value:
      none for "None", otherwise those of its space-separated tokens. */
  function DepList(raw: string): (names: seq<string>)
    ensures raw == "None" ==> names == []
    ensures forall k :: 0 <= k < |names| ==> IsName(names[k])
    ensures |names| <= |GetlineTokens(raw)|
  {
    if raw == "None" then [] else DepNames(GetlineTokens(raw))
  }

  /** Names keep token order and are not deduplicated: the names of two
      token runs are the names of the first followed by those of the second. */
  lemma {:induction false} DepNamesAppend(a: seq<string>, b: seq<string>)
    ensures DepNames(a + b) == DepNames(a) + DepNames(b)
    decreases |b|
  {
    if b == [] {
      assert a + b == a;
    } else {
      var b' := b[..|b| - 1];
      var t := b[|b| - 1];
      var ab := a + b;
      assert ab[..|ab| - 1] == a + b' && ab[|ab| - 1] == t;
      DepNamesLast(ab);
      DepNamesLast(b);
      DepNamesAppend(a, b');
      assert DepNames(ab) == DepNames(a + b') + DepName(t);
      ConcatAssoc(DepNames(a), DepNames(b'), DepName(t));
    }
  }

  /** Concatenation regroups freely. */
  lemma ConcatAssoc<T>(x: seq<T>, y: seq<T>, z: seq<T>)
    ensures (x + y) + z == x + (y + z)
  {
  }

  /** The last token's name comes last. */
  lemma DepNamesLast(tokens: seq<string>)
    requires tokens != []
    ensures DepNames(tokens) == DepNames(tokens[..|tokens| - 1]) + DepName(tokens[|tokens| - 1])
  {
  }

  /** The body of `split_dep_list`'s token loop: trim, drop an empty token
      or a bare comma, pop one trailing comma, scan `idx` forward over name
      characters and keep the scanned prefix when it is non-empty. */
  method TokenName(raw: string) returns (names: seq<string>)
    ensures names == DepName(raw)
  {
    names := [];
    var token := Trim(raw);
    if token == [] || token == "," {
      return;
    }
    if token[|token| - 1] == ',' {
      token := token[..|token| - 1];
    }
    var idx := 0;
    while idx < |token| && IsNameChar(token[idx])
      invariant 0 <= idx <= |token|
      invariant forall j :: 0 <= j < idx ==> IsNameChar(token[j])
    {
      idx := idx + 1;
    }
    NamePrefixUnique(token, idx);
    var name := token[..idx];
    if name != [] {
      names := [name];
    }
  }

  /** One more token adds its own name, if any, at the end. */
  lemma DepNamesStep(tokens: seq<string>, i: nat)
    requires i < |tokens|
    ensures DepNames(tokens[..i + 1]) == DepNames(tokens[..i]) + DepName(tokens[i])
  {
    assert tokens[..i + 1][..i] == tokens[..i];
  }

  /** `split_dep_list`: "None" gives no names; otherwise each getline token
      in turn contributes its name, if any. */
  method SplitDepList(raw: string) returns (out: seq<string>)
    ensures out == DepList(raw)
  {
    out := [];
    if raw == "None" {
      return;
    }
    var tokens := GetlineTokens(raw);
    for i := 0 to |tokens|
      invariant out == DepNames(tokens[..i])
    {
      DepNamesStep(tokens, i);
      var names := TokenName(tokens[i]);
      out := out + names;
    }
    assert tokens[..|tokens|] == tokens;
  }

  lemma {:induction false} NamePrefixUnique(s: string, n: nat)
    requires n <= |s|
    requires forall i :: 0 <= i < n ==> IsNameChar(s[i])
    requires n < |s| ==> !IsNameChar(s[n])
    ensures n == NamePrefixLength(s)
  {
    if n > 0 {
      NamePrefixUnique(s[1..], n - 1);
    }
  }

  /** A word without spaces is a single piece. */
  lemma {:induction false} PiecesOfWord(w: string)
    requires ' ' !in w
    ensures Pieces(w) == [w]
  {
    if w != [] {
      PiecesOfWord(w[1..]);
      assert w == [w[0]] + w[1..];
    }
  }

  /** A word followed by a space is the first piece of what follows. */
  lemma {:induction false} PiecesAfterWord(w: string, s: string)
    requires ' ' !in w
    ensures Pieces(w + " " + s) == [w] + Pieces(s)
  {
    if w == [] {
      assert w + " " + s == [' '] + s;
      assert (w + " " + s)[1..] == s;
    } else {
      PiecesAfterWord(w[1..], s);
      assert (w + " " + s)[1..] == w[1..] + " " + s;
      assert w == [w[0]] + w[1..];
    }
  }

  /** A name followed by a version constraint (or by nothing) contributes
      just the name: "lib>=2.0" gives "lib". */
  lemma NameBeforeConstraint(name: string, suffix: string)
    requires IsName(name)
    requires suffix != [] ==> !IsNameChar(suffix[0]) && !IsSpace(suffix[|suffix| - 1]) && suffix[|suffix| - 1] != ','
    ensures DepName(name + suffix) == [name]
  {
    var t := name + suffix;
    var last := if suffix == [] then name[|name| - 1] else suffix[|suffix| - 1];
    assert t[0] == name[0] && t[|t| - 1] == last;
    assert !IsSpace(last) && last != ',';
    TrimKeepsUnpadded(t);
    assert Trimmed(t) == t && t != ",";
    NamePrefixUnique(t, |name|);
    assert t[..|name|] == name;
  }

  /** A bare name contributes itself. */
  lemma NameAlone(name: string)
    requires IsName(name)
    ensures DepName(name) == [name]
  {
    NameBeforeConstraint(name, []);
    assert name + [] == name;
  }

  /** A name followed by one comma contributes the name: "bar," gives "bar". */
  lemma NameBeforeComma(name: string)
    requires IsName(name)
    ensures DepName(name + ",") == [name]
  {
    var t := name + ",";
    TrimKeepsUnpadded(t);
    assert |t| >= 2 && t[|t| - 1] == ',';
    assert t[..|t| - 1] == name;
    NamePrefixUnique(name, |name|);
    assert name[..|name|] == name;
  }

  /** The literal "None", and an empty value, give no names. */
  lemma NoneAndEmptyGiveNothing()
    ensures DepList("None") == [] && DepList("") == []
  {
    assert Pieces("") == [[]];
  }

  /** A constraint suffix is cut off the only token. */
  lemma ConstraintExample(raw: string)
    requires raw == "lib>=2.0"
    ensures DepList(raw) == ["lib"]
  {
    PiecesOfWord(raw);
    assert raw == "lib" + ">=2.0";
    NameBeforeConstraint("lib", ">=2.0");
    assert DepNames([raw]) == DepNames([]) + DepName(raw);
  }

  /** Getline tokens of three space-separated words. */
  lemma TokensOfThree(a: string, b: string, c: string)
    requires ' ' !in a && ' ' !in b && ' ' !in c && c != []
    ensures GetlineTokens(a + " " + b + " " + c) == [a, b, c]
  {
    var raw := a + " " + b + " " + c;
    assert raw == a + " " + (b + " " + c);
    PiecesAfterWord(a, b + " " + c);
    PiecesAfterWord(b, c);
    PiecesOfWord(c);
  }

  /** The names of three tokens are those of each in turn. */
  lemma NamesOfThree(x: string, y: string, z: string)
    ensures DepNames([x, y, z]) == DepName(x) + DepName(y) + DepName(z)
  {
    assert [x, y, z][..2] == [x, y] && [x, y][..1] == [x] && [x][..0] == [];
    assert DepNames([x]) == DepName(x);
    assert DepNames([x, y]) == DepName(x) + DepName(y);
  }

  lemma SeparatedTokens(a: string, b: string, c: string)
    requires IsName(a) && IsName(b) && IsName(c)
    ensures GetlineTokens(a + " " + b + ", " + c) == [a, b + ",", c]
  {
    assert a + " " + b + ", " + c == a + " " + (b + ",") + " " + c;
    assert ' ' !in a && ' ' !in b + "," && ' ' !in c;
    TokensOfThree(a, b + ",", c);
  }

  lemma SeparatedNames(a: string, b: string, c: string)
    requires IsName(a) && IsName(b) && IsName(c)
    ensures DepNames([a, b + ",", c]) == [a, b, c]
  {
    NamesOfThree(a, b + ",", c);
    NameAlone(a);
    NameBeforeComma(b);
    NameAlone(c);
  }

  /** Space-separated and comma-separated names come out in order, one per
      token, commas dropped: "a b, c" gives a, b, c. */
  lemma SeparatorsDropped(a: string, b: string, c: string)
    requires IsName(a) && IsName(b) && IsName(c)
    ensures DepList(a + " " + b + ", " + c) == [a, b, c]
  {
    var raw := a + " " + b + ", " + c;
    assert raw[|a|] == ' ' && ' ' !in "None";
    SeparatedTokens(a, b, c);
    SeparatedNames(a, b, c);
  }

  /** The example value "foo bar, baz". */
  lemma CommaExample(raw: string)
    requires raw == "foo bar, baz"
    ensures DepList(raw) == ["foo", "bar", "baz"]
  {
    assert raw == "foo" + " " + "bar" + ", " + "baz";
    SeparatorsDropped("foo", "bar", "baz");
  }
}
