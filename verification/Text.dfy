/** The string operations the HTTP head is read and written with. A string is a sequence of
    scalar values, as a Rust `str` is. */
module Text {
  import opened Bytes

  /** The first position of `c`, or the length when it does not occur. */
  function IndexOf(s: string, c: char): (i: nat)
    ensures i <= |s| && c !in s[..i] && (i < |s| ==> s[i] == c)
  {
    if s == "" || s[0] == c then 0 else
    var i := IndexOf(s[1..], c) + 1;
    assert s[..i] == [s[0]] + s[1..][..i - 1];
    i
  }

  /** `split`: the pieces between separators; always at least one. */
  function Split(s: string, c: char): (pieces: seq<string>)
    ensures |pieces| >= 1
    decreases |s|
  {
    var i := IndexOf(s, c);
    if i == |s| then [s] else [s[..i]] + Split(s[i + 1..], c)
  }

  /** `split_once`: what is before and after the first separator. */
  function SplitOnce(s: string, c: char): Option<(string, string)> {
    var i := IndexOf(s, c);
    if i == |s| then None else Some((s[..i], s[i + 1..]))
  }

  /** `trim_end_matches('\r')` */
  function TrimEndCR(s: string): string {
    if s != "" && s[|s| - 1] == '\r' then TrimEndCR(s[..|s| - 1]) else s
  }

  /** The Unicode White_Space property. */
  predicate IsSpace(c: char) {
    var v := c as int;
    9 <= v <= 13 || v == 32 || v == 0x85 || v == 0xA0 || v == 0x1680 || 0x2000 <= v <= 0x200A ||
    v == 0x2028 || v == 0x2029 || v == 0x202F || v == 0x205F || v == 0x3000
  }

  function TrimStart(s: string): string {
    if s != "" && IsSpace(s[0]) then TrimStart(s[1..]) else s
  }

  function TrimEnd(s: string): string {
    if s != "" && IsSpace(s[|s| - 1]) then TrimEnd(s[..|s| - 1]) else s
  }

  function Trim(s: string): string {
    TrimEnd(TrimStart(s))
  }

  function Lower(c: char): char {
    if 'A' <= c <= 'Z' then (c as int + 32) as char else c
  }

  /** `eq_ignore_ascii_case` */
  predicate SameName(a: string, b: string) {
    |a| == |b| && forall i :: 0 <= i < |a| ==> Lower(a[i]) == Lower(b[i])
  }

  predicate StartsWith(s: string, prefix: string) {
    |s| >= |prefix| && s[..|prefix|] == prefix
  }

  /** `contains` */
  predicate Contains(s: string, needle: string) {
    StartsWith(s, needle) || (s != "" && Contains(s[1..], needle))
  }

  /** `join` */
  function Join(tokens: seq<string>, sep: string): string {
    if tokens == [] then ""
    else if |tokens| == 1 then tokens[0]
    else tokens[0] + sep + Join(tokens[1..], sep)
  }

  // ---- Splitting what was joined -----------------------------------------------------------

  lemma {:induction false} IndexOfIs(s: string, c: char, i: nat)
    requires i <= |s| && c !in s[..i] && (i < |s| ==> s[i] == c)
    ensures IndexOf(s, c) == i
  {
    if i == 0 {
    } else {
      assert s[0] in s[..i];
      assert s[1..][..i - 1] == s[..i][1..];
      IndexOfIs(s[1..], c, i - 1);
    }
  }

  lemma SplitHere(a: string, c: char, rest: string)
    requires c !in a
    ensures Split(a + [c] + rest, c) == [a] + Split(rest, c)
    ensures SplitOnce(a + [c] + rest, c) == Some((a, rest))
  {
    var s := a + [c] + rest;
    assert s[..|a|] == a && s[|a| + 1..] == rest;
    IndexOfIs(s, c, |a|);
  }

  lemma SplitLast(a: string, c: char)
    requires c !in a
    ensures Split(a, c) == [a]
  {
    assert a[..|a|] == a;
    IndexOfIs(a, c, |a|);
  }

  /** Between separators, or an end: what a piece is, without splitting. */
  predicate IsItem(s: string, c: char, before: string, item: string, behind: string) {
    s == before + item + behind && c !in item &&
    (before == "" || before[|before| - 1] == c) && (behind == "" || behind[0] == c)
  }

  lemma ItemBehind(s: string, c: char, i: nat, before: string, item: string, behind: string)
    requires i < |s| && s[i] == c && IsItem(s[i + 1..], c, before, item, behind)
    ensures IsItem(s, c, s[..i + 1] + before, item, behind)
  {
    assert s == s[..i + 1] + s[i + 1..];
    assert s[..i + 1] + (before + item + behind) == s[..i + 1] + before + item + behind;
  }

  lemma ItemInFront(s: string, c: char, i: nat)
    requires i <= |s| && c !in s[..i] && (i < |s| ==> s[i] == c)
    ensures IsItem(s, c, "", s[..i], s[i..])
  {
    assert s == "" + s[..i] + s[i..];
  }

  /** No separator is before the first one. */
  lemma FirstIsFirst(s: string, c: char, j: nat)
    requires j < |s| && s[j] == c
    ensures IndexOf(s, c) <= j
  {
    hide IndexOf;
    var i := IndexOf(s, c);
    assert forall k :: 0 <= k < i ==> s[..i][k] == s[k] && s[..i][k] in s[..i];
  }

  lemma {:induction false} PieceIsItem(s: string, c: char, k: nat) returns (before: string, behind: string)
    requires k < |Split(s, c)|
    ensures IsItem(s, c, before, Split(s, c)[k], behind)
    decreases |s|
  {
    hide IndexOf, IsItem;
    var i := IndexOf(s, c);
    if k == 0 {
      ItemInFront(s, c, i);
      assert i == |s| ==> s[..i] == s;
      before, behind := "", s[i..];
    } else {
      before, behind := PieceIsItem(s[i + 1..], c, k - 1);
      ItemBehind(s, c, i, before, Split(s, c)[k], behind);
      before := s[..i + 1] + before;
    }
  }

  lemma DropFront(a: string, b: string, k: nat)
    requires k <= |a|
    ensures (a + b)[k..] == a[k..] + b
  {
  }

  lemma ItemInRest(s: string, c: char, i: nat, before: string, item: string, behind: string)
    requires IsItem(s, c, before, item, behind) && i < |before|
    ensures IsItem(s[i + 1..], c, before[i + 1..], item, behind)
  {
    DropFront(before + item, behind, i + 1);
    DropFront(before, item, i + 1);
  }

  lemma {:induction false} ItemIsPiece(s: string, c: char, before: string, item: string, behind: string)
    requires IsItem(s, c, before, item, behind)
    ensures item in Split(s, c)
    decreases |s|
  {
    hide Split, IndexOf, IsItem;
    ItemParts(s, c, before, item, behind);
    if before == "" {
      if behind == "" {
        SplitLast(item, c);
      } else {
        SplitHere(item, c, behind[1..]);
      }
    } else {
      var i := IndexOf(s, c);
      FirstIsFirst(s, c, |before| - 1);
      ItemInRest(s, c, i, before, item, behind);
      SplitThere(s, c, i);
      ItemIsPiece(s[i + 1..], c, before[i + 1..], item, behind);
    }
  }

  lemma ItemParts(s: string, c: char, before: string, item: string, behind: string)
    requires IsItem(s, c, before, item, behind)
    ensures c !in item && |before| <= |s|
    ensures before == "" && behind == "" ==> s == item
    ensures before == "" && behind != "" ==> s == item + [c] + behind[1..]
    ensures before != "" ==> s[|before| - 1] == c
  {
    assert before != "" ==> s[|before| - 1] == before[|before| - 1];
    assert behind != "" ==> behind == [c] + behind[1..];
  }

  lemma SplitThere(s: string, c: char, i: nat)
    requires i < |s| && s[i] == c && c !in s[..i]
    ensures Split(s, c) == [s[..i]] + Split(s[i + 1..], c)
  {
    hide Split, IndexOf;
    assert s == s[..i] + [c] + s[i + 1..];
    SplitHere(s[..i], c, s[i + 1..]);
  }

  lemma SplitOfMany(s: string, c: char)
    ensures |Split(s, c)| >= 2 <==> c in s
  {
    var i := IndexOf(s, c);
    assert s[..i] + s[i..] == s;
    assert i == |s| ==> s[..i] == s;
  }

  lemma JoinedThrice(a: string, b: string, c: string, d: string, e: string)
    ensures a + b + c + d + e == a + b + (c + d + e)
  {
  }

  lemma {:induction false} SplitAppend(a: string, c: char, b: string)
    ensures Split(a + [c] + b, c) == Split(a, c) + Split(b, c)
    decreases |a|
  {
    hide IndexOf, Split;
    var i := IndexOf(a, c);
    if i == |a| {
      assert a[..i] == a;
      SplitLast(a, c);
      SplitHere(a, c, b);
    } else {
      var first, rest := a[..i], a[i + 1..];
      assert a == first + [c] + rest;
      JoinedThrice(first, [c], rest, [c], b);
      SplitHere(first, c, rest);
      SplitHere(first, c, rest + [c] + b);
      SplitAppend(rest, c, b);
      assert [first] + (Split(rest, c) + Split(b, c)) == ([first] + Split(rest, c)) + Split(b, c);
    }
  }

  // ---- Trimming ------------------------------------------------------------------------------

  lemma TrimOneCR(s: string)
    requires '\r' !in s
    ensures TrimEndCR(s + "\r") == s
  {
    assert (s + "\r")[..|s|] == s;
    if s != "" {
      assert s[|s| - 1] in s;
    }
  }

  /** Neither end is white space. */
  predicate Trimmed(s: string) {
    s != "" ==> !IsSpace(s[0]) && !IsSpace(s[|s| - 1])
  }

  lemma TrimTrimmed(s: string)
    requires Trimmed(s)
    ensures Trim(s) == s
  {
  }

  lemma TrimAfterSpace(s: string)
    ensures Trim(" " + s) == Trim(s)
  {
    assert (" " + s)[1..] == s;
  }

  /** The characters that Unicode gives the property, one by one. */
  const WHITE_SPACE: set<int> := {
    0x09, 0x0A, 0x0B, 0x0C, 0x0D, 0x20, 0x85, 0xA0, 0x1680,
    0x2000, 0x2001, 0x2002, 0x2003, 0x2004, 0x2005, 0x2006, 0x2007, 0x2008, 0x2009, 0x200A,
    0x2028, 0x2029, 0x202F, 0x205F, 0x3000
  }

  predicate IsBlank(s: string) {
    forall i :: 0 <= i < |s| ==> s[i] as int in WHITE_SPACE
  }

  predicate IsVisible(c: char) {
    c as int !in WHITE_SPACE
  }

  lemma SpaceIsListed(c: char)
    ensures IsSpace(c) <==> c as int in WHITE_SPACE
  {
  }

  lemma {:induction false} TrimStartBlank(blank: string, s: string)
    requires IsBlank(blank) && (s != "" ==> IsVisible(s[0]))
    ensures TrimStart(blank + s) == s
  {
    hide IsSpace, WHITE_SPACE;
    if blank == "" {
      assert blank + s == s;
      if s != "" {
        SpaceIsListed(s[0]);
      }
    } else {
      SpaceIsListed(blank[0]);
      assert (blank + s)[1..] == blank[1..] + s;
      TrimStartBlank(blank[1..], s);
    }
  }

  lemma {:induction false} TrimEndBlank(s: string, blank: string)
    requires IsBlank(blank) && (s != "" ==> IsVisible(s[|s| - 1]))
    ensures TrimEnd(s + blank) == s
  {
    hide IsSpace, WHITE_SPACE;
    if blank == "" {
      assert s + blank == s;
      if s != "" {
        SpaceIsListed(s[|s| - 1]);
      }
    } else {
      var n := |blank| - 1;
      SpaceIsListed(blank[n]);
      assert (s + blank)[..|s| + n] == s + blank[..n];
      TrimEndBlank(s, blank[..n]);
    }
  }

  /** White space around what neither starts nor ends with any is removed, and nothing else is. */
  lemma TrimBlanks(left: string, s: string, right: string)
    requires IsBlank(left) && IsBlank(right)
    requires s != "" ==> IsVisible(s[0]) && IsVisible(s[|s| - 1])
    ensures Trim(left + s + right) == s
  {
    hide IsSpace, WHITE_SPACE, TrimStart;
    if s == "" {
      assert left + s + right == (left + right) + "";
      TrimStartBlank(left + right, "");
      assert TrimEnd("") == "";
    } else {
      assert left + s + right == left + (s + right);
      TrimStartBlank(left, s + right);
      TrimEndBlank(s, right);
    }
  }

  /** Any number of carriage returns at the end are removed, and nothing else is. */
  lemma {:induction false} TrimManyCR(s: string, n: nat)
    requires s != "" ==> s[|s| - 1] != '\r'
    ensures TrimEndCR(s + seq(n, _ => '\r')) == s
  {
    var tail := seq(n, _ => '\r');
    if n == 0 {
      assert s + tail == s;
    } else {
      assert (s + tail)[..|s| + n - 1] == s + seq(n - 1, _ => '\r');
      TrimManyCR(s, n - 1);
    }
  }

  /** The same letter, in either case. */
  predicate SameLetter(x: char, y: char) {
    x == y ||
    ('A' <= x <= 'Z' && y as int == x as int + 32) ||
    ('A' <= y <= 'Z' && x as int == y as int + 32)
  }

  /** Two names are the same exactly when they differ in the case of ASCII letters at most. */
  lemma SameNameIff(a: string, b: string)
    ensures SameName(a, b) <==> |a| == |b| && forall i :: 0 <= i < |a| ==> SameLetter(a[i], b[i])
  {
  }

  /** A text is contained where it starts, at some position. */
  lemma {:induction false} ContainsIff(s: string, needle: string)
    ensures Contains(s, needle) <==> exists i: nat :: i <= |s| && StartsWith(s[i..], needle)
  {
    assert s[0..] == s;
    if s == "" {
    } else {
      ContainsIff(s[1..], needle);
      if i: nat :| i <= |s[1..]| && StartsWith(s[1..][i..], needle) {
        assert s[i + 1..] == s[1..][i..];
      }
      if i: nat :| i <= |s| && StartsWith(s[i..], needle) {
        assert i > 0 ==> s[1..][i - 1..] == s[i..];
      }
    }
  }

  // ---- Lists of tokens -----------------------------------------------------------------------

  /** The trimmed, non-empty pieces of a comma-separated value, in order. */
  function Tokens(value: string): seq<string> {
    Kept(Split(value, ','))
  }

  function Kept(pieces: seq<string>): seq<string> {
    if pieces == [] then []
    else (if Trim(pieces[0]) == "" then [] else [Trim(pieces[0])]) + Kept(pieces[1..])
  }

  lemma {:induction false} KeptAppend(a: seq<string>, b: seq<string>)
    ensures Kept(a + b) == Kept(a) + Kept(b)
  {
    hide Trim;
    if a == [] {
      assert a + b == b;
    } else {
      assert (a + b)[1..] == a[1..] + b;
      KeptAppend(a[1..], b);
    }
  }

  /** What tokens are, in two equations: those on either side of a comma, and, without one, the trimmed
      value unless nothing is left. */
  lemma TokensAppend(a: string, b: string)
    ensures Tokens(a + "," + b) == Tokens(a) + Tokens(b)
    ensures ',' !in a ==> Tokens(a) == if Trim(a) == "" then [] else [Trim(a)]
  {
    hide Trim, Split;
    SplitAppend(a, ',', b);
    KeptAppend(Split(a, ','), Split(b, ','));
    if ',' !in a {
      SplitLast(a, ',');
      assert [a][1..] == [];
    }
  }

  predicate IsToken(t: string) {
    t != "" && Trimmed(t) && ',' !in t
  }

  predicate AllTokens(tokens: seq<string>) {
    forall i :: 0 <= i < |tokens| ==> IsToken(tokens[i])
  }

  lemma {:induction false} JoinTrimmed(tokens: seq<string>)
    requires tokens != [] && AllTokens(tokens)
    ensures var s := Join(tokens, ", ");
            s != "" && s[0] == tokens[0][0] && !IsSpace(s[|s| - 1])
  {
    if |tokens| <= 1 {
    } else {
      JoinTrimmed(tokens[1..]);
    }
  }

  lemma KeptCons(piece: string, pieces: seq<string>)
    ensures Kept([piece] + pieces) == (if Trim(piece) == "" then [] else [Trim(piece)]) + Kept(pieces)
  {
    assert ([piece] + pieces)[1..] == pieces;
  }

  lemma TokenThen(t: string, rest: string)
    requires IsToken(t)
    ensures Tokens(t + "," + rest) == [t] + Tokens(rest)
    ensures Tokens(" " + t + "," + rest) == [t] + Tokens(rest)
  {
    TrimTrimmed(t);
    TrimAfterSpace(t);
    hide Trim, Split, Kept;
    SplitHere(t, ',', rest);
    SplitHere(" " + t, ',', rest);
    KeptCons(t, Split(rest, ','));
    KeptCons(" " + t, Split(rest, ','));
  }

  lemma TokenAlone(t: string)
    requires IsToken(t)
    ensures Tokens(t) == [t] && Tokens(" " + t) == [t]
  {
    assert Kept([]) == [];
    TrimTrimmed(t);
    TrimAfterSpace(t);
    hide Trim, Split, Kept;
    SplitLast(t, ',');
    SplitLast(" " + t, ',');
    KeptCons(t, []);
    KeptCons(" " + t, []);
    assert [t] + [] == [t] && [" " + t] + [] == [" " + t];
  }

  lemma {:induction false} TokensOfJoin(tokens: seq<string>)
    requires tokens != [] && AllTokens(tokens)
    ensures Tokens(Join(tokens, ", ")) == tokens && Tokens(" " + Join(tokens, ", ")) == tokens
  {
    hide Tokens, IsToken;
    var t := tokens[0];
    if |tokens| == 1 {
      TokenAlone(t);
    } else {
      var rest := " " + Join(tokens[1..], ", ");
      TokensOfJoin(tokens[1..]);
      TokenThen(t, rest);
      assert Join(tokens, ", ") == t + "," + rest;
      assert " " + Join(tokens, ", ") == " " + t + "," + rest;
      assert [t] + tokens[1..] == tokens;
    }
  }
}
