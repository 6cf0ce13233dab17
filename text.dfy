/**
 * String primitives the loader relies on from the C++ standard library:
 * std::string::find, trimming with find_first_not_of / find_last_not_of,
 * std::getline line splitting, writing lines back with "\n", std::tolower,
 * std::replace and std::remove_if(::isspace).
 */
module Text {
  import opened Wrappers

  /** `p` occurs in `s` starting at index `i`. */
  predicate MatchesAt(s: string, p: string, i: nat) {
    i + |p| <= |s| && s[i..i + |p|] == p
  }

  /** `s` begins with `p`. */
  predicate StartsWith(s: string, p: string) {
    MatchesAt(s, p, 0)
  }

  /** `s` ends with `p`. */
  predicate EndsWith(s: string, p: string) {
    |p| <= |s| && s[|s| - |p|..] == p
  }

  /** std::string::find(p, from): the first index at or after `from` where `p` occurs. */
  function Find(s: string, p: string, from: nat): (r: Option<nat>)
    ensures r.Some? ==> from <= r.value && MatchesAt(s, p, r.value)
    ensures r.Some? ==> forall j :: from <= j < r.value ==> !MatchesAt(s, p, j)
    ensures r.None? ==> forall j :: from <= j ==> !MatchesAt(s, p, j)
    decreases |s| + 1 - from
  {
    if from > |s| then None
    else if MatchesAt(s, p, from) then Some(from)
    else Find(s, p, from + 1)
  }

  /** `s.find(p) != npos`: `p` occurs somewhere in `s`. */
  predicate Contains(s: string, p: string) {
    exists i: nat :: i <= |s| - |p| && MatchesAt(s, p, i)
  }

  /** Contains agrees with searching from the start. */
  lemma ContainsIff(s: string, p: string)
    ensures Contains(s, p) <==> Find(s, p, 0).Some?
  {
    var f := Find(s, p, 0);
    if f.Some? {
      assert MatchesAt(s, p, f.value);
    }
  }

  lemma ContainsAt(s: string, p: string, i: nat)
    requires MatchesAt(s, p, i)
    ensures Contains(s, p)
  {
  }

  lemma ContainsInfix(a: string, p: string, b: string)
    ensures Contains(a + p + b, p)
  {
    var s := a + p + b;
    assert s[|a|..|a| + |p|] == p;
    ContainsAt(s, p, |a|);
  }

  lemma ContainsPrefix(p: string, b: string)
    ensures Contains(p + b, p)
  {
    ContainsInfix("", p, b);
    assert "" + p + b == p + b;
  }

  /** An occurrence survives text added on either side. */
  lemma ContainsWidened(a: string, s: string, b: string, p: string)
    requires Contains(s, p)
    ensures Contains(a + s + b, p)
  {
    var i: nat :| i <= |s| - |p| && MatchesAt(s, p, i);
    var t := a + s + b;
    assert t[|a| + i..|a| + i + |p|] == s[i..i + |p|];
    ContainsAt(t, p, |a| + i);
  }

  /** An occurrence fixes each character it covers. */
  lemma MatchChar(s: string, p: string, i: nat, k: nat)
    requires k < |p|
    ensures MatchesAt(s, p, i) ==> s[i + k] == p[k]
  {
    if MatchesAt(s, p, i) {
      assert s[i..i + |p|][k] == s[i + k];
    }
  }

    /**
   * `p` does not occur in `a + [c] + b` when its character `p[k]` is `c`,
   * `c` occurs neither in `a` nor in `b`, and the one alignment that puts
   * `p[k]` on that `c` fails on `p[0]`.
   */
  lemma NotContainsAround(a: string, c: char, b: string, p: string, k: nat)
    requires k < |p| && p[k] == c && c !in a && c !in b
    requires 0 < k <= |a| && a[|a| - k] != p[0]
    ensures !Contains(a + [c] + b, p)
  {
    var s := a + [c] + b;
    forall i: nat | i <= |s| - |p| ensures !MatchesAt(s, p, i) {
      MatchChar(s, p, i, k);
      MatchChar(s, p, i, 0);
      if i + k < |a| {
        assert s[i + k] == a[i + k];
      } else if i + k > |a| {
        assert s[i + k] == b[i + k - |a| - 1];
      } else {
        assert s[i] == a[|a| - k];
      }
    }
  }

/** A pattern that holds a character `s` lacks cannot occur in `s`. */
  lemma NotContainsByChar(s: string, p: string, c: char)
    requires c in p && c !in s
    ensures !Contains(s, p)
  {
    forall i: nat | i <= |s| - |p| ensures !MatchesAt(s, p, i) {
      var k :| 0 <= k < |p| && p[k] == c;
      assert s[i..i + |p|][k] == s[i + k];
      assert s[i + k] in s;
    }
  }

  /** Searching a one-character pattern compares one character. */
  lemma MatchesCharAt(s: string, c: char, i: nat)
    ensures MatchesAt(s, [c], i) <==> i < |s| && s[i] == c
  {
    if i < |s| && s[i] == c {
      assert s[i..i + 1] == [c];
    }
  }

  /** std::string::find(c, from) for one character: the first index at or after `from` holding `c`. */
  lemma FindCharFacts(s: string, c: char, from: nat)
    ensures Find(s, [c], from).None? ==> forall k :: from <= k < |s| ==> s[k] != c
    ensures Find(s, [c], from).Some? ==>
      var e := Find(s, [c], from).value;
      e < |s| && s[e] == c && forall k :: from <= k < e ==> s[k] != c
  {
    forall k | from <= k < |s| ensures MatchesAt(s, [c], k) <==> s[k] == c {
      MatchesCharAt(s, c, k);
    }
    if Find(s, [c], from).Some? {
      MatchesCharAt(s, c, Find(s, [c], from).value);
    }
  }

  /** Finding a character from the start stops at its first occurrence. */
  lemma FindCharAt(s: string, c: char, e: nat)
    requires e < |s| && s[e] == c && forall k :: 0 <= k < e ==> s[k] != c
    ensures Find(s, [c], 0) == Some(e)
  {
    MatchesCharAt(s, c, e);
    forall j | 0 <= j < e ensures !MatchesAt(s, [c], j) {
      MatchesCharAt(s, c, j);
    }
  }

  /** Trimming keeps a character out of text that lacks it. */
  lemma TrimKeepsOut(s: string, cs: set<char>, c: char)
    requires c !in s
    ensures c !in Trim(s, cs)
  {
  }

  /** Every character of `s[lo..hi]` is in `cs`. */
  predicate AllInRange(s: string, cs: set<char>, lo: nat, hi: nat)
    requires lo <= hi <= |s|
  {
    forall k :: lo <= k < hi ==> s[k] in cs
  }

  /** `s.find_first_not_of(cs) == npos`: every character of `s` is in `cs`. */
  predicate AllIn(s: string, cs: set<char>) {
    AllInRange(s, cs, 0, |s|)
  }

  /**
   * `s.find_first_not_of(cs, from)`, with npos written as `|s|` (erasing up to
   * npos and up to the end are the same).
   */
  function TrimStartIndex(s: string, cs: set<char>, from: nat): (r: nat)
    requires from <= |s|
    ensures from <= r <= |s| && AllInRange(s, cs, from, r)
    ensures r < |s| ==> s[r] !in cs
    decreases |s| - from
  {
    if from < |s| && s[from] in cs then TrimStartIndex(s, cs, from + 1) else from
  }

  /**
   * One past `s.find_last_not_of(cs)` within `s[lo..hi]`, or `lo` when that
   * range holds only characters of `cs`.
   */
  function TrimEndIndex(s: string, cs: set<char>, lo: nat, hi: nat): (r: nat)
    requires lo <= hi <= |s|
    ensures lo <= r <= hi && AllInRange(s, cs, r, hi)
    ensures lo < r ==> s[r - 1] !in cs
    decreases hi
  {
    if lo < hi && s[hi - 1] in cs then TrimEndIndex(s, cs, lo, hi - 1) else hi
  }

  /** `s[i..j]` is what is left of `s` once leading and trailing characters in `cs` are cut. */
  predicate TrimmedSlice(s: string, cs: set<char>, i: nat, j: nat) {
    i <= j <= |s| && AllInRange(s, cs, 0, i) && AllInRange(s, cs, j, |s|)
  }

  /** `s.erase(0, s.find_first_not_of(cs)); s.erase(s.find_last_not_of(cs) + 1);` */
  function Trim(s: string, cs: set<char>): (r: string)
    ensures exists i: nat, j: nat :: TrimmedSlice(s, cs, i, j) && r == s[i..j]
    ensures r != [] ==> r[0] !in cs && r[|r| - 1] !in cs
  {
    var i := TrimStartIndex(s, cs, 0);
    var j := TrimEndIndex(s, cs, i, |s|);
    assert TrimmedSlice(s, cs, i, j);
    s[i..j]
  }

  /** The scan for the first character outside `cs` stops at the first such `k`. */
  lemma {:induction false} TrimStartIndexAt(s: string, cs: set<char>, from: nat, k: nat)
    requires from <= k <= |s| && AllInRange(s, cs, from, k) && (k < |s| ==> s[k] !in cs)
    ensures TrimStartIndex(s, cs, from) == k
    decreases k - from
  {
    if from < k {
      TrimStartIndexAt(s, cs, from + 1, k);
    }
  }

  /** The scan back for the last character outside `cs` stops at the last such `k`. */
  lemma {:induction false} TrimEndIndexAt(s: string, cs: set<char>, lo: nat, hi: nat, k: nat)
    requires lo <= k <= hi <= |s| && AllInRange(s, cs, k, hi) && (lo < k ==> s[k - 1] !in cs)
    ensures TrimEndIndex(s, cs, lo, hi) == k
    decreases hi
  {
    if k < hi {
      TrimEndIndexAt(s, cs, lo, hi - 1, k);
    }
  }

  /** Trimming leaves `s[i..j]` when only characters of `cs` lie outside it and it starts and ends outside `cs`. */
  lemma TrimIs(s: string, cs: set<char>, i: nat, j: nat)
    requires i <= j <= |s| && AllInRange(s, cs, 0, i) && AllInRange(s, cs, j, |s|)
    requires i < j ==> s[i] !in cs && s[j - 1] !in cs
    ensures Trim(s, cs) == s[i..j]
  {
    if i < j {
      TrimStartIndexAt(s, cs, 0, i);
      TrimEndIndexAt(s, cs, i, |s|, j);
    } else {
      assert AllInRange(s, cs, 0, |s|) by {
        forall k | 0 <= k < |s| ensures s[k] in cs {
          if k >= i { assert AllInRange(s, cs, j, |s|); }
        }
      }
      TrimStartIndexAt(s, cs, 0, |s|);
      TrimEndIndexAt(s, cs, |s|, |s|, |s|);
    }
  }

  /** Trimming cuts exactly the runs of `cs` around text that starts and ends outside `cs`. */
  lemma TrimAround(a: string, core: string, b: string, cs: set<char>)
    requires AllIn(a, cs) && AllIn(b, cs)
    requires core == "" || (core[0] !in cs && core[|core| - 1] !in cs)
    ensures Trim(a + core + b, cs) == core
  {
    var s := a + core + b;
    if core == "" {
      assert AllInRange(s, cs, 0, |s|) by {
        forall k | 0 <= k < |s| ensures s[k] in cs {
          if k < |a| { assert s[k] == a[k]; } else { assert s[k] == b[k - |a|]; }
        }
      }
      TrimStartIndexAt(s, cs, 0, |s|);
      TrimEndIndexAt(s, cs, |s|, |s|, |s|);
    } else {
      var e := |a| + |core|;
      assert s[|a|] == core[0] && s[e - 1] == core[|core| - 1];
      assert AllInRange(s, cs, 0, |a|) by {
        forall k | 0 <= k < |a| ensures s[k] in cs { assert s[k] == a[k]; }
      }
      assert AllInRange(s, cs, e, |s|) by {
        forall k | e <= k < |s| ensures s[k] in cs { assert s[k] == b[k - e]; }
      }
      TrimStartIndexAt(s, cs, 0, |a|);
      TrimEndIndexAt(s, cs, |a|, |s|, e);
      assert s[|a|..e] == core;
    }
  }

  /** The characters the cleanup scanner treats as blank. */
  const BlankChars: set<char> := {' ', '\t', '\r', '\n'}

  predicate IsBlank(s: string) {
    AllIn(s, BlankChars)
  }

  /**
   * The lines std::getline extracts from `s`: pieces separated by '\n',
   * where a final '\n' does not start another (empty) line.
   */
  function Lines(s: string): (r: seq<string>)
    ensures s == "" <==> r == []
    decreases |s|
  {
    if s == "" then []
    else match Find(s, "\n", 0)
      case None => [s]
      case Some(k) => [s[..k]] + Lines(s[k + 1..])
  }

  /** No line std::getline returns holds the delimiter. */
  lemma {:induction false} LinesNoNewline(s: string)
    ensures forall k :: 0 <= k < |Lines(s)| ==> '\n' !in Lines(s)[k]
    decreases |s|
  {
    if s != "" {
      match Find(s, "\n", 0)
      case None =>
        NoNewline(s, |s|);
        assert s[..|s|] == s;
      case Some(k) =>
        NoNewline(s, k);
        LinesNoNewline(s[k + 1..]);
    }
  }

  /** Helper for LinesNoNewline: no '\n' before the first match of "\n". */
  lemma NoNewline(s: string, k: nat)
    requires k <= |s|
    requires forall j :: 0 <= j < k ==> !MatchesAt(s, "\n", j)
    ensures '\n' !in s[..k]
  {
    forall j | 0 <= j < k ensures s[j] != '\n' {
      MatchesCharAt(s, '\n', j);
    }
  }

  /** What writing each line followed by "\n" produces. */
  function Unlines(ls: seq<string>): string {
    if ls == [] then "" else ls[0] + "\n" + Unlines(ls[1..])
  }

  /** One written line followed by the rest. */
  lemma UnlinesCons(line: string, ls: seq<string>)
    ensures Unlines([line] + ls) == line + "\n" + Unlines(ls)
  {
    assert ([line] + ls)[0] == line;
    assert ([line] + ls)[1..] == ls;
  }

  lemma {:induction false} UnlinesAppend(a: seq<string>, b: seq<string>)
    ensures Unlines(a + b) == Unlines(a) + Unlines(b)
  {
    if a == [] {
      assert a + b == b;
    } else {
      var head, tail := a[0], a[1..];
      assert a + b == [head] + (tail + b) by {
        assert a == [head] + tail;
      }
      assert Unlines(a + b) == head + "\n" + Unlines(tail + b) by {
        UnlinesCons(head, tail + b);
      }
      assert Unlines(tail + b) == Unlines(tail) + Unlines(b) by {
        UnlinesAppend(tail, b);
      }
      assert Unlines(a) == head + "\n" + Unlines(tail) by {
        UnlinesCons(head, tail);
        assert a == [head] + tail;
      }
      SeqAssoc(head + "\n", Unlines(tail), Unlines(b));
    }
  }

  lemma SeqAssoc<T>(a: seq<T>, b: seq<T>, c: seq<T>)
    ensures (a + b) + c == a + (b + c)
  {
  }

  /** A three-part concatenation splits back after its first two parts. */
  lemma ConcatSlices<T>(a: seq<T>, b: seq<T>, c: seq<T>)
    ensures (a + b + c)[..|a| + |b|] == a + b && (a + b + c)[|a| + |b|..] == c
  {
  }

  /** A line without '\n' followed by "\n" is read back as that line. */
  lemma LinesCons(a: string, b: string)
    requires '\n' !in a
    ensures Lines(a + "\n" + b) == [a] + Lines(b)
  {
    var s := a + "\n" + b;
    forall j | 0 <= j < |a| ensures !MatchesAt(s, "\n", j) {
      MatchesCharAt(s, '\n', j);
      assert s[j] == a[j];
    }
    MatchesCharAt(s, '\n', |a|);
    assert Find(s, "\n", 0) == Some(|a|);
    assert s[..|a|] == a && s[|a| + 1..] == b;
  }

  /** Reading back what was written as lines gives the same lines. */
  lemma {:induction false} LinesOfUnlines(ls: seq<string>, tail: string)
    requires forall k :: 0 <= k < |ls| ==> '\n' !in ls[k]
    ensures Lines(Unlines(ls) + tail) == ls + Lines(tail)
  {
    if ls == [] {
      assert Unlines(ls) + tail == tail;
    } else {
      var head, rest := ls[0], Unlines(ls[1..]) + tail;
      assert Lines(rest) == ls[1..] + Lines(tail) by { LinesOfUnlines(ls[1..], tail); }
      assert Unlines(ls) + tail == head + "\n" + rest by {
        assert Unlines(ls) == head + "\n" + Unlines(ls[1..]);
        SeqAssoc(head + "\n", Unlines(ls[1..]), tail);
      }
      assert Lines(head + "\n" + rest) == [head] + Lines(rest) by { LinesCons(head, rest); }
      assert [head] + (ls[1..] + Lines(tail)) == ls + Lines(tail) by {
        SeqAssoc([head], ls[1..], Lines(tail));
        assert [head] + ls[1..] == ls;
      }
    }
  }

  /** getline on text holding a '\n': the piece before the first one, then the rest. */
  lemma LinesSplit(s: string, k: nat)
    requires k < |s| && s[k] == '\n' && '\n' !in s[..k]
    ensures Lines(s) == [s[..k]] + Lines(s[k + 1..])
  {
    MatchesCharAt(s, '\n', k);
    forall j | 0 <= j < k ensures !MatchesAt(s, "\n", j) {
      MatchesCharAt(s, '\n', j);
      assert s[j] == s[..k][j];
    }
    assert Find(s, "\n", 0) == Some(k);
  }

  /** The first '\n' of text that holds one. */
  lemma FirstNewline(s: string) returns (k: nat)
    requires '\n' in s
    ensures k < |s| && s[k] == '\n' && '\n' !in s[..k]
  {
    k := 0;
    while s[k] != '\n'
      invariant k < |s| && '\n' !in s[..k]
      decreases |s| - k
    {
      assert s[..k + 1] == s[..k] + [s[k]];
      k := k + 1;
    }
  }

  /** The text after a '\n' still ends with '\n' when the whole text did. */
  lemma RestEndsWithNewline(s: string, k: nat)
    requires k < |s| && s[|s| - 1] == '\n'
    ensures s[k + 1..] == "" || s[k + 1..][|s[k + 1..]| - 1] == '\n'
  {
  }

  /** Text cut at a '\n' is put back together by writing the piece and a "\n". */
  lemma SplitAtNewline(s: string, k: nat)
    requires k < |s| && s[k] == '\n'
    ensures s == s[..k] + "\n" + s[k + 1..]
  {
  }

  /** Text that is empty or ends with '\n' survives a read-lines / write-lines cycle. */
  lemma {:induction false} UnlinesOfLines(s: string)
    requires s == "" || s[|s| - 1] == '\n'
    ensures Unlines(Lines(s)) == s
    decreases |s|
  {
    if s != "" {
      assert '\n' in s by {
        assert s[|s| - 1] in s;
      }
      var k := FirstNewline(s);
      var line, rest := s[..k], s[k + 1..];
      LinesSplit(s, k);
      RestEndsWithNewline(s, k);
      UnlinesOfLines(rest);
      UnlinesCons(line, Lines(rest));
      SplitAtNewline(s, k);
    }
  }

  /** The C-locale std::tolower on one character. */
  function LowerChar(c: char): char {
    if 'A' <= c <= 'Z' then (c as int + 32) as char else c
  }

  /** std::transform(..., ::tolower) over a copy of `s`. */
  function ToLower(s: string): (r: string)
    ensures |r| == |s|
    ensures forall k :: 0 <= k < |s| ==> r[k] == LowerChar(s[k])
  {
    if s == "" then "" else [LowerChar(s[0])] + ToLower(s[1..])
  }

  /** std::replace(s.begin(), s.end(), a, b) on a copy of `s`. */
  function ReplaceChar(s: string, a: char, b: char): (r: string)
    ensures |r| == |s|
    ensures forall k :: 0 <= k < |s| ==> r[k] == if s[k] == a then b else s[k]
    ensures a != b ==> a !in r
  {
    if s == "" then "" else [if s[0] == a then b else s[0]] + ReplaceChar(s[1..], a, b)
  }

  /** The characters ::isspace accepts in the C locale. */
  predicate IsSpace(c: char) {
    c == ' ' || c == '\t' || c == '\n' || c == '\U{000B}' || c == '\U{000C}' || c == '\r'
  }

  /** `s.erase(std::remove_if(s.begin(), s.end(), ::isspace), s.end())` on a copy. */
  function RemoveSpaces(s: string): (r: string)
    ensures |r| <= |s|
    ensures forall k :: 0 <= k < |r| ==> !IsSpace(r[k])
    ensures (forall k :: 0 <= k < |s| ==> !IsSpace(s[k])) ==> r == s
  {
    if s == "" then ""
    else if IsSpace(s[0]) then RemoveSpaces(s[1..])
    else [s[0]] + RemoveSpaces(s[1..])
  }

  /** One character is dropped when it is a space and kept otherwise. */
  lemma RemoveSpacesChar(c: char)
    ensures RemoveSpaces([c]) == if IsSpace(c) then "" else [c]
  {
    assert [c][1..] == "";
  }

  /**
   * Removal works character by character: removing from a concatenation is
   * removing from each part, so with RemoveSpacesChar the result is the
   * subject's non-space characters, in order.
   */
  lemma {:induction false} RemoveSpacesAppend(a: string, b: string)
    ensures RemoveSpaces(a + b) == RemoveSpaces(a) + RemoveSpaces(b)
    decreases |a|
  {
    if a == "" {
      assert a + b == b;
    } else {
      assert (a + b)[0] == a[0] && (a + b)[1..] == a[1..] + b;
      RemoveSpacesAppend(a[1..], b);
      if !IsSpace(a[0]) {
        SeqAssoc([a[0]], RemoveSpaces(a[1..]), RemoveSpaces(b));
      }
    }
  }
}
