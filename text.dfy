/** The string operations of Python's `str` that the log parsers rely on. */
module Text {

  /** `c.isspace()`: the characters `str.strip()` removes when given no argument. */
  predicate IsSpace(c: char) {
    || c == ' '
    || ('\t' <= c <= '\r')                  // \t \n \x0b \x0c \r
    || ('\U{1C}' <= c <= '\U{1F}')          // file, group, record and unit separators
    || c == '\U{85}' || c == '\U{A0}' || c == '\U{1680}'
    || ('\U{2000}' <= c <= '\U{200A}')
    || c == '\U{2028}' || c == '\U{2029}' || c == '\U{202F}' || c == '\U{205F}' || c == '\U{3000}'
  }

  /** Every character of s at positions lo to hi - 1 is whitespace. */
  predicate SpaceBetween(s: string, lo: int, hi: int) {
    forall i :: 0 <= lo <= i < hi <= |s| ==> IsSpace(s[i])
  }

  predicate AllSpace(s: string) {
    SpaceBetween(s, 0, |s|)
  }

  /** The scan of `strip()` from the left: the first position from lo on that is not whitespace, or hi. */
  function SkipSpace(s: string, lo: nat, hi: nat): (k: nat)
    requires lo <= hi <= |s|
    ensures lo <= k <= hi
    ensures SpaceBetween(s, lo, k)
    ensures k == hi || !IsSpace(s[k])
    decreases hi - lo
  {
    if lo < hi && IsSpace(s[lo]) then SkipSpace(s, lo + 1, hi) else lo
  }

  /** The scan of `strip()` from the right: the start of the whitespace run that ends at hi. */
  function TrailStart(s: string, hi: nat): (k: nat)
    requires hi <= |s|
    ensures k <= hi
    ensures SpaceBetween(s, k, hi)
    ensures k == 0 || !IsSpace(s[k - 1])
  {
    if hi > 0 && IsSpace(s[hi - 1]) then TrailStart(s, hi - 1) else hi
  }

  /**
   * `s.strip()`: s is lead + r + trail with lead and trail all whitespace, and r
   * neither starts nor ends with whitespace.
   */
  function Strip(s: string): (r: string)
    ensures exists lead :: 0 <= lead <= |s| - |r| && r == s[lead..lead + |r|]
              && SpaceBetween(s, 0, lead) && SpaceBetween(s, lead + |r|, |s|)
    ensures r == [] || (!IsSpace(r[0]) && !IsSpace(r[|r| - 1]))
    ensures r == [] <==> AllSpace(s)
  {
    var e := TrailStart(s, |s|);
    var b := SkipSpace(s, 0, e);
    assert e == b ==> AllSpace(s) by {
      if e == b {
        forall i | 0 <= i < |s| ensures IsSpace(s[i]) {
          if i >= e { assert SpaceBetween(s, e, |s|); }
        }
      }
    }
    s[b..e]
  }

  /** `'\n'.join(pieces)`. */
  function Join(pieces: seq<string>): string
    requires |pieces| >= 1
  {
    if |pieces| == 1 then pieces[0] else pieces[0] + "\n" + Join(pieces[1..])
  }

  /**
   * `s.split('\n')`: the pieces between newlines, always at least one; joining
   * them with newlines gives s back.
   */
  function Split(s: string): (r: seq<string>)
    ensures |r| >= 1
    ensures forall i :: 0 <= i < |r| ==> '\n' !in r[i]
    ensures Join(r) == s
  {
    if s == [] then [""]
    else
      var rest := Split(s[1..]);
      if s[0] == '\n' then
        assert Join([""] + rest) == "\n" + Join(rest) by { assert ([""] + rest)[1..] == rest; }
        [""] + rest
      else
        var r := [[s[0]] + rest[0]] + rest[1..];
        assert Join(r) == s by {
          if |rest| > 1 { assert r[1..] == rest[1..]; }
        }
        r
  }

  /** Splitting a newline-free piece gives just that piece. */
  lemma {:induction false} SplitNoNewline(p: string)
    requires '\n' !in p
    ensures Split(p) == [p]
  {
    if p != [] {
      SplitNoNewline(p[1..]);
      assert [p[0]] + p[1..] == p;
    }
  }

  /** `p + '\n' + t` splits into p followed by the pieces of t. */
  lemma {:induction false} SplitAfterPiece(p: string, t: string)
    requires '\n' !in p
    ensures Split(p + "\n" + t) == [p] + Split(t)
  {
    if p == [] {
      assert "\n" + t == p + "\n" + t;
      assert ("\n" + t)[1..] == t;
    } else {
      var s := p + "\n" + t;
      assert s[0] == p[0] != '\n';
      assert s[1..] == p[1..] + "\n" + t;
      SplitAfterPiece(p[1..], t);
      var rest := Split(s[1..]);
      assert rest[0] == p[1..] && rest[1..] == Split(t);
      assert Split(s) == [[s[0]] + rest[0]] + rest[1..];
      assert [p[0]] + p[1..] == p;
    }
  }

  /** Split is the inverse of Join on newline-free pieces. */
  lemma {:induction false} SplitJoin(pieces: seq<string>)
    requires |pieces| >= 1
    requires forall i :: 0 <= i < |pieces| ==> '\n' !in pieces[i]
    ensures Split(Join(pieces)) == pieces
  {
    if |pieces| == 1 {
      SplitNoNewline(pieces[0]);
    } else {
      SplitJoin(pieces[1..]);
      SplitAfterPiece(pieces[0], Join(pieces[1..]));
      assert [pieces[0]] + pieces[1..] == pieces;
    }
  }

  /** `s.startswith(p)`. */
  predicate StartsWith(s: string, p: string) {
    |p| <= |s| && s[..|p|] == p
  }

  /** p occurs somewhere in s. */
  predicate Occurs(s: string, p: string) {
    exists i :: 0 <= i <= |s| && OccursAt(s, p, i)
  }

  predicate OccursAt(s: string, p: string, i: int) {
    0 <= i <= |s| - |p| && s[i..i + |p|] == p
  }

  /**
   * `s.replace(p, '')`: deletes every occurrence of p found by a left-to-right scan
   * that does not look again at what it has already passed.
   */
  function RemoveAll(s: string, p: string): (r: string)
    requires p != []
    ensures |r| <= |s|
    ensures !Occurs(s, p) ==> r == s
  {
    if |s| < |p| then s
    else if s[..|p|] == p then
      assert OccursAt(s, p, 0);
      RemoveAll(s[|p|..], p)
    else
      var r := [s[0]] + RemoveAll(s[1..], p);
      assert !Occurs(s, p) ==> !Occurs(s[1..], p) by {
        if Occurs(s[1..], p) {
          var i :| 0 <= i <= |s| - 1 && OccursAt(s[1..], p, i);
          assert 0 <= i <= |s| - 1 - |p|;
          assert s[i + 1..i + 1 + |p|] == s[1..][i..i + |p|];
          assert OccursAt(s, p, i + 1);
        }
      }
      assert !Occurs(s, p) ==> r == s by {
        if !Occurs(s, p) { assert [s[0]] + s[1..] == s; }
      }
      r
  }

  /** A leading occurrence of p is deleted and the scan carries on after it. */
  lemma RemoveAllLeading(p: string, t: string)
    requires p != []
    ensures RemoveAll(p + t, p) == RemoveAll(t, p)
  {
    assert (p + t)[..|p|] == p;
    assert (p + t)[|p|..] == t;
  }

  /** An occurrence of p at i + 1 in s is an occurrence at i in s without its first character. */
  lemma OccursShift(s: string, p: string, i: nat)
    requires s != []
    ensures OccursAt(s, p, i + 1) <==> OccursAt(s[1..], p, i)
  {
    if i + 1 + |p| <= |s| {
      assert s[i + 1..i + 1 + |p|] == s[1..][i..i + |p|];
    }
  }

  /** `s.find(p)`: the leftmost position where p occurs, or -1. */
  function Find(s: string, p: string): (i: int)
    requires p != []
    ensures i == -1 || 0 <= i <= |s| - |p|
    decreases |s|
  {
    if |s| < |p| then -1
    else if s[..|p|] == p then 0
    else
      var j := Find(s[1..], p);
      if j < 0 then -1 else j + 1
  }

  /** `find` gives an occurrence with none before it, and -1 exactly when there is none. */
  lemma {:induction false} FindSpec(s: string, p: string)
    requires p != []
    ensures Find(s, p) == -1 || OccursAt(s, p, Find(s, p))
    ensures Find(s, p) == -1 <==> !Occurs(s, p)
    ensures forall j :: 0 <= j < Find(s, p) ==> !OccursAt(s, p, j)
    decreases |s|
  {
    if |s| < |p| {
    } else if s[..|p|] == p {
      assert OccursAt(s, p, 0);
    } else {
      FindSpec(s[1..], p);
      var j := Find(s[1..], p);
      assert !OccursAt(s, p, 0);
      if j < 0 {
        assert !Occurs(s, p) by {
          forall k | 0 <= k <= |s| ensures !OccursAt(s, p, k) {
            if k > 0 { OccursShift(s, p, k - 1); }
          }
        }
      } else {
        OccursShift(s, p, j);
        forall k | 0 <= k < j + 1 ensures !OccursAt(s, p, k) {
          if k > 0 { OccursShift(s, p, k - 1); }
        }
      }
    }
  }

  /**
   * Reference definition of `s.replace(p, '')`: the text before the leftmost
   * occurrence of p, then the same replacement on the text after it.
   */
  function ReplaceEmpty(s: string, p: string): string
    requires p != []
    decreases |s|
  {
    var i := Find(s, p);
    if i < 0 then s else s[..i] + ReplaceEmpty(s[i + |p|..], p)
  }

  /** The left-to-right scan removes exactly the leftmost non-overlapping occurrences, as the reference does. */
  lemma {:induction false} RemoveAllReplace(s: string, p: string)
    requires p != []
    ensures RemoveAll(s, p) == ReplaceEmpty(s, p)
    decreases |s|
  {
    if |s| < |p| {
    } else if s[..|p|] == p {
      RemoveAllReplace(s[|p|..], p);
      assert s[..0] == [];
    } else {
      RemoveAllReplace(s[1..], p);
      ReplaceEmptyCons(s, p);
    }
  }

  /** Where p occurs, the reference keeps the text before the leftmost occurrence and goes on after it. */
  lemma ReplaceEmptyFound(s: string, p: string, rest: string)
    requires p != [] && Find(s, p) >= 0 && rest == s[Find(s, p) + |p|..]
    ensures ReplaceEmpty(s, p) == s[..Find(s, p)] + ReplaceEmpty(rest, p)
  {
  }

  /** Without an occurrence at the front, the leftmost occurrence is one place further on in the rest. */
  lemma FindCons(s: string, p: string)
    requires p != [] && |p| <= |s| && s[..|p|] != p
    ensures Find(s, p) == if Find(s[1..], p) < 0 then -1 else Find(s[1..], p) + 1
  {
  }

  /** Regrouping a character, a text and a text. */
  lemma ConsRegroup(c: char, a: string, b: string)
    ensures ([c] + a) + b == [c] + (a + b)
  {
  }

  /** Without an occurrence at the front, the reference keeps the first character and goes on with the rest. */
  lemma ReplaceEmptyCons(s: string, p: string)
    requires p != [] && |p| <= |s| && s[..|p|] != p
    ensures ReplaceEmpty(s, p) == [s[0]] + ReplaceEmpty(s[1..], p)
  {
    FindCons(s, p);
    if Find(s[1..], p) >= 0 {
      ReplaceEmptyShift(s, p);
    } else {
      assert [s[0]] + s[1..] == s;
    }
  }

  /** The found case of ReplaceEmptyCons: the occurrence in the rest is one place on in s. */
  lemma ReplaceEmptyShift(s: string, p: string)
    requires p != [] && s != [] && Find(s[1..], p) >= 0 && Find(s, p) == Find(s[1..], p) + 1
    ensures ReplaceEmpty(s, p) == [s[0]] + ReplaceEmpty(s[1..], p)
  {
    var t := s[1..];
    var j := Find(t, p);
    var rest := s[j + 1 + |p|..];
    assert t[j + |p|..] == rest;
    ReplaceEmptyFound(t, p, rest);
    ReplaceEmptyFound(s, p, rest);
    assert s[..j + 1] == [s[0]] + t[..j];
    ConsRegroup(s[0], t[..j], ReplaceEmpty(rest, p));
  }

  /** A line json.loads cannot read a value from: nothing but JSON whitespace. */
  predicate JsonBlank(line: string) {
    forall i :: 0 <= i < |line| ==> line[i] in {' ', '\t', '\n', '\r'}
  }
}
