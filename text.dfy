/** The JavaScript string and array built-ins the notes core relies on:
    `split` on one character, `trim`, `join`, `includes`, `endsWith`,
    `toLowerCase` (ASCII letters only) and `[...new Set(xs)]`. */
module Text {

  /** The characters `String.prototype.trim` removes: WhiteSpace and
      LineTerminator of ECMAScript. */
  predicate IsSpace(c: char) {
    || c == ' ' || c == '\t' || c == '\n' || c == '\r' || c == '\U{B}' || c == '\U{C}'
    || c == '\U{A0}' || c == '\U{1680}' || ('\U{2000}' <= c <= '\U{200A}')
    || c == '\U{2028}' || c == '\U{2029}' || c == '\U{202F}' || c == '\U{205F}'
    || c == '\U{3000}' || c == '\U{FEFF}'
  }

  predicate AllSpace(s: string) {
    forall k :: 0 <= k < |s| ==> IsSpace(s[k])
  }

  /** A string that `trim` leaves as it is. */
  predicate Trimmed(s: string) {
    s == [] || (!IsSpace(s[0]) && !IsSpace(s[|s| - 1]))
  }

  /** The length of the run of spaces that starts the string. */
  function LeadingSpaces(s: string): (n: nat)
    ensures n <= |s|
  {
    if s != [] && IsSpace(s[0]) then 1 + LeadingSpaces(s[1..]) else 0
  }

  /** The leading run is all spaces and is followed by a non-space. */
  lemma {:induction false} LeadingSpacesSpec(s: string)
    ensures forall k :: 0 <= k < LeadingSpaces(s) ==> IsSpace(s[k])
    ensures LeadingSpaces(s) < |s| ==> !IsSpace(s[LeadingSpaces(s)])
  {
    if s != [] && IsSpace(s[0]) {
      LeadingSpacesSpec(s[1..]);
    }
  }

  /** The length of the run of spaces that ends the string. */
  function TrailingSpaces(s: string): (n: nat)
    ensures n <= |s|
  {
    if s != [] && IsSpace(s[|s| - 1]) then 1 + TrailingSpaces(s[..|s| - 1]) else 0
  }

  /** The trailing run is all spaces and is preceded by a non-space. */
  lemma {:induction false} TrailingSpacesSpec(s: string)
    ensures forall k :: |s| - TrailingSpaces(s) <= k < |s| ==> IsSpace(s[k])
    ensures TrailingSpaces(s) < |s| ==> !IsSpace(s[|s| - 1 - TrailingSpaces(s)])
  {
    if s != [] && IsSpace(s[|s| - 1]) {
      TrailingSpacesSpec(s[..|s| - 1]);
    }
  }

  /** `s.trim()`: the middle of `s` left once both runs of spaces are cut. */
  function Trim(s: string): (r: string)
    ensures Trimmed(r)
    ensures LeadingSpaces(s) + |r| <= |s|
    ensures r == s[LeadingSpaces(s)..LeadingSpaces(s) + |r|]
  {
    LeadingSpacesSpec(s);
    TrailingSpacesSpec(s);
    var l := LeadingSpaces(s);
    if l == |s| then [] else s[l..|s| - TrailingSpaces(s)]
  }

  /** What `trim` cuts: spaces before and after the result. */
  lemma TrimSpec(s: string)
    ensures forall k :: 0 <= k < LeadingSpaces(s) ==> IsSpace(s[k])
    ensures forall k :: LeadingSpaces(s) + |Trim(s)| <= k < |s| ==> IsSpace(s[k])
  {
    LeadingSpacesSpec(s);
    TrailingSpacesSpec(s);
  }

  /** Cutting a run of spaces on each side, so that what is left is trimmed,
      can only give `Trim(s)`. */
  lemma TrimUnique(s: string, i: nat, j: nat)
    requires i <= j <= |s|
    requires forall k :: 0 <= k < i ==> IsSpace(s[k])
    requires forall k :: j <= k < |s| ==> IsSpace(s[k])
    requires Trimmed(s[i..j])
    ensures Trim(s) == s[i..j]
  {
    var r := Trim(s);
    TrimSpec(s);
    LeadingSpacesSpec(s);
    if i < j {
      assert !IsSpace(s[i]) by { assert s[i..j][0] == s[i]; }
      assert !IsSpace(s[j - 1]) by { assert s[i..j][j - i - 1] == s[j - 1]; }
      assert LeadingSpaces(s) == i;
      assert |r| > 0 ==> r[|r| - 1] == s[i + |r| - 1];
    }
  }

  /** Spaces appended to a string disappear under `trim`. */
  lemma TrimAppendSpaces(s: string, sp: string)
    requires AllSpace(sp)
    ensures Trim(s + sp) == Trim(s)
  {
    var l := LeadingSpaces(s);
    var r := Trim(s);
    TrimSpec(s);
    var t := s + sp;
    assert t[l..l + |r|] == r;
    forall k | l + |r| <= k < |t| ensures IsSpace(t[k]) {
      if k >= |s| { assert t[k] == sp[k - |s|]; }
    }
    TrimUnique(t, l, l + |r|);
  }

  /** A string that is already trimmed is its own trim, and so is one with a
      single space put before it. */
  lemma TrimOfTrimmed(s: string)
    requires Trimmed(s)
    ensures Trim(s) == s
    ensures s != "" ==> Trim(" " + s) == s
  {
    TrimUnique(s, 0, |s|);
    assert s[0..|s|] == s;
    if s != "" {
      var t := " " + s;
      assert t[1..|t|] == s;
      TrimUnique(t, 1, |t|);
    }
  }

  /** `s.split(sep)` for a one-character separator: the pieces between the
      separators, at least one piece, and none holding the separator. */
  function Split(s: string, sep: char): (r: seq<string>)
    ensures |r| >= 1
    ensures forall i :: 0 <= i < |r| ==> sep !in r[i]
    ensures r[0] <= s && (|r[0]| < |s| ==> s[|r[0]|] == sep)
  {
    if s == [] then [""]
    else
      var rest := Split(s[1..], sep);
      if s[0] == sep then [""] + rest else [[s[0]] + rest[0]] + rest[1..]
  }

  /** A string without the separator splits into itself. */
  lemma {:induction false} SplitNoSep(s: string, sep: char)
    requires sep !in s
    ensures Split(s, sep) == [s]
  {
    if s != [] {
      SplitNoSep(s[1..], sep);
      assert [s[0]] + s[1..] == s;
    }
  }

  /** Splitting at a first separator: the part before it, then the pieces
      of the rest. */
  lemma {:induction false} SplitCons(x: string, y: string, sep: char)
    requires sep !in x
    ensures Split(x + [sep] + y, sep) == [x] + Split(y, sep)
  {
    if x == [] {
      assert x + [sep] + y == [sep] + y;
      assert ([sep] + y)[1..] == y;
    } else {
      var s := x + [sep] + y;
      assert s[1..] == x[1..] + [sep] + y;
      SplitCons(x[1..], y, sep);
      assert [x[0]] + x[1..] == x;
    }
  }

  /** `parts.join(sep)`; an empty list joins to the empty string. */
  function Join(parts: seq<string>, sep: string): string {
    if parts == [] then ""
    else if |parts| == 1 then parts[0]
    else parts[0] + sep + Join(parts[1..], sep)
  }

  /** Joining the pieces of a split with the separator gives the string back. */
  lemma {:induction false} JoinSplit(s: string, sep: char)
    ensures Join(Split(s, sep), [sep]) == s
  {
    if s != [] {
      var rest := Split(s[1..], sep);
      JoinSplit(s[1..], sep);
      if s[0] == sep {
        assert ([""] + rest)[1..] == rest;
      } else if |rest| > 1 {
        assert ([[s[0]] + rest[0]] + rest[1..])[1..] == rest[1..];
      }
    }
  }

  /** Everything before the first separator. */
  function BeforeFirst(s: string, sep: char): (r: string)
    ensures r <= s && sep !in r
    ensures |r| < |s| ==> s[|r|] == sep
  {
    if s == [] || s[0] == sep then [] else [s[0]] + BeforeFirst(s[1..], sep)
  }

  /** `BeforeFirst` is the first piece of `s.split(sep)`. */
  lemma {:induction false} BeforeFirstIsFirstPiece(s: string, sep: char)
    ensures BeforeFirst(s, sep) == Split(s, sep)[0]
  {
    if s != [] && s[0] != sep {
      BeforeFirstIsFirstPiece(s[1..], sep);
    }
  }

  /** A string without the separator is all before it. */
  lemma {:induction false} BeforeFirstNoSep(s: string, sep: char)
    requires sep !in s
    ensures BeforeFirst(s, sep) == s
  {
    if s != [] {
      BeforeFirstNoSep(s[1..], sep);
      assert [s[0]] + s[1..] == s;
    }
  }

  /** The part before the first separator of a concatenation: found in the
      first string when it holds a separator, otherwise all of the first
      string followed by the part of the second. */
  lemma {:induction false} BeforeFirstConcat(s: string, t: string, sep: char)
    ensures BeforeFirst(s + t, sep)
            == if sep in s then BeforeFirst(s, sep) else s + BeforeFirst(t, sep)
  {
    if s == [] {
      assert s + t == t;
    } else if s[0] != sep {
      assert (s + t)[1..] == s[1..] + t;
      BeforeFirstConcat(s[1..], t, sep);
      assert sep in s <==> sep in s[1..];
    }
  }

  /** `s.includes(sub)`. */
  function Includes(s: string, sub: string): bool {
    sub <= s || (s != [] && Includes(s[1..], sub))
  }

  /** `sub` occurs in `s` starting at position `i`. */
  predicate OccursAt(s: string, sub: string, i: nat) {
    i + |sub| <= |s| && s[i..i + |sub|] == sub
  }

  /** `Includes` holds exactly when `sub` occurs at some position of `s`. */
  lemma {:induction false} IncludesIff(s: string, sub: string)
    ensures Includes(s, sub) <==> exists i :: OccursAt(s, sub, i)
  {
    if sub <= s {
      assert s[0..|sub|] == sub;
      assert OccursAt(s, sub, 0);
    } else if s != [] {
      IncludesIff(s[1..], sub);
      forall i: nat | OccursAt(s, sub, i) ensures OccursAt(s[1..], sub, i - 1) {
        assert i != 0;
        assert s[1..][i - 1..i - 1 + |sub|] == s[i..i + |sub|];
      }
      forall i: nat | OccursAt(s[1..], sub, i) ensures OccursAt(s, sub, i + 1) {
        assert s[1..][i..i + |sub|] == s[i + 1..i + 1 + |sub|];
      }
    } else {
      assert forall i :: OccursAt(s, sub, i) ==> sub == [];
    }
  }

  /** `s.endsWith(suffix)`. */
  predicate EndsWith(s: string, suffix: string) {
    |suffix| <= |s| && s[|s| - |suffix|..] == suffix
  }

  /** `toLowerCase` restricted to the ASCII letters. */
  function LowerChar(c: char): char {
    if 'A' <= c <= 'Z' then (c as int + 32) as char else c
  }

  function ToLower(s: string): (r: string)
    ensures |r| == |s|
  {
    seq(|s|, i requires 0 <= i < |s| => LowerChar(s[i]))
  }

  predicate NoDups<T(==)>(xs: seq<T>) {
    forall i, j :: 0 <= i < j < |xs| ==> xs[i] != xs[j]
  }

  /** The position of the first occurrence of `x` in `xs`. */
  function FirstIndex<T(==)>(xs: seq<T>, x: T): (k: nat)
    requires x in xs
    ensures k < |xs| && xs[k] == x && x !in xs[..k]
  {
    if xs[0] == x then 0 else 1 + FirstIndex(xs[1..], x)
  }

  /** `[...new Set(xs)]`: a JavaScript `Set` remembers insertion order, so
      each element is appended the first time it is met. */
  function Dedupe<T(==)>(xs: seq<T>): (r: seq<T>)
  {
    if xs == [] then []
    else
      var init := xs[..|xs| - 1];
      Dedupe(init) + (if xs[|xs| - 1] in init then [] else [xs[|xs| - 1]])
  }

  /** What `Dedupe` keeps: every element once, nothing else, in the order of
      first occurrence. */
  lemma {:induction false} DedupeSpec<T>(xs: seq<T>)
    ensures NoDups(Dedupe(xs))
    ensures forall x :: x in Dedupe(xs) <==> x in xs
    ensures forall i, j :: 0 <= i < j < |Dedupe(xs)| ==>
              FirstIndex(xs, Dedupe(xs)[i]) < FirstIndex(xs, Dedupe(xs)[j])
  {
    if xs != [] {
      var init := xs[..|xs| - 1];
      var last := xs[|xs| - 1];
      DedupeSpec(init);
      var d := Dedupe(init);
      var r := Dedupe(xs);
      assert xs == init + [last];
      forall y | y in init ensures FirstIndex(xs, y) == FirstIndex(init, y) {
        FirstIndexPrefix(init, [last], y);
      }
      if last !in init {
        assert FirstIndex(xs, last) == |xs| - 1 by {
          assert forall k :: 0 <= k < |init| ==> xs[k] == init[k];
        }
        forall i, j | 0 <= i < j < |r| ensures FirstIndex(xs, r[i]) < FirstIndex(xs, r[j]) {
          if j == |r| - 1 {
            assert r[i] == d[i];
          } else {
            assert r[i] == d[i] && r[j] == d[j];
          }
        }
      } else {
        assert r == d;
      }
    }
  }

  /** A list without repeats is left as it is. */
  lemma {:induction false} DedupeNoDups<T>(xs: seq<T>)
    requires NoDups(xs)
    ensures Dedupe(xs) == xs
  {
    if xs != [] {
      var init := xs[..|xs| - 1];
      assert NoDups(init);
      DedupeNoDups(init);
      assert xs[|xs| - 1] !in init;
      assert init + [xs[|xs| - 1]] == xs;
    }
  }

  lemma {:induction false} FirstIndexPrefix<T>(xs: seq<T>, ys: seq<T>, x: T)
    requires x in xs
    ensures x in xs + ys && FirstIndex(xs + ys, x) == FirstIndex(xs, x)
  {
    if xs[0] != x {
      assert (xs + ys)[1..] == xs[1..] + ys;
      FirstIndexPrefix(xs[1..], ys, x);
    }
  }
}
