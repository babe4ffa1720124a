/** The few pieces of Python's `os.path` (POSIX flavour) and `str` that the
    build scripts lean on: `join`, `splitext`, `dirname`, the `in` operator on
    strings, `lower` and `replace`. */
module PyPath {
  import opened Seqs

  const Sep: char := '/'
  const ExtSep: char := '.'

  predicate IsAbsolute(p: string) {
    |p| > 0 && p[0] == Sep
  }

  /** `os.path.join(a, b)`: an absolute `b` replaces `a`; otherwise a separator
      is inserted unless `a` is empty or already ends in one. */
  function Join(a: string, b: string): (r: string)
    ensures IsAbsolute(b) ==> r == b
    ensures IsAbsolute(a) ==> IsAbsolute(r)
  {
    if IsAbsolute(b) then b
    else if a == [] || a[|a| - 1] == Sep then a + b
    else a + [Sep] + b
  }

  /** A relative second argument is appended to the first: the result starts
      with `a` and ends with `b`. */
  lemma JoinAppends(a: string, b: string)
    requires !IsAbsolute(b)
    ensures a <= Join(a, b)
    ensures |Join(a, b)| >= |a| + |b| && Join(a, b)[|Join(a, b)| - |b|..] == b
  {
    if a != [] && a[|a| - 1] != Sep {
      assert Join(a, b) == a + [Sep] + b;
    }
  }

  /** Index of the last `c` in `s`, or -1 (`str.rfind`). */
  function LastIndexOf(s: string, c: char): (i: int)
    ensures -1 <= i < |s|
    ensures i >= 0 ==> s[i] == c
  {
    if s == [] then -1
    else if LastIndexOf(s[1..], c) >= 0 then LastIndexOf(s[1..], c) + 1
    else if s[0] == c then 0
    else -1
  }

  /** No `c` follows the index `LastIndexOf` reports. */
  lemma {:induction false} LastIndexOfIsLast(s: string, c: char)
    ensures forall k :: LastIndexOf(s, c) < k < |s| ==> s[k] != c
    decreases |s|
  {
    if s != [] {
      LastIndexOfIsLast(s[1..], c);
    }
  }

  /** What `splitext` can return as an extension: empty, or a dot followed by
      characters that are neither dots nor separators. */
  predicate IsExtension(e: string) {
    e == [] || (e[0] == ExtSep && forall k :: 1 <= k < |e| ==> e[k] != ExtSep && e[k] != Sep)
  }

  /** Some character in `p[lo..hi]` is not a dot. */
  predicate HasNonDot(p: string, lo: int, hi: int)
    requires 0 <= lo && hi <= |p|
    decreases hi - lo
  {
    lo < hi && (p[lo] != ExtSep || HasNonDot(p, lo + 1, hi))
  }

  /** `HasNonDot` holds as soon as one character in the range is not a dot. */
  lemma {:induction false} HasNonDotAt(p: string, lo: int, hi: int, k: int)
    requires 0 <= lo <= k < hi <= |p|
    requires p[k] != ExtSep
    ensures HasNonDot(p, lo, hi)
    decreases k - lo
  {
    if lo < k {
      HasNonDotAt(p, lo + 1, hi, k);
    }
  }

  /** `os.path.splitext(p)`: splits at the last dot of the last path component,
      unless everything before that dot in the component is dots (so `.bashrc`
      and `..` have no extension). */
  function SplitExt(p: string): (r: (string, string))
    ensures r.0 + r.1 == p
    ensures IsExtension(r.1)
  {
    var sepIndex := LastIndexOf(p, Sep);
    var dotIndex := LastIndexOf(p, ExtSep);
    LastIndexOfIsLast(p, Sep);
    LastIndexOfIsLast(p, ExtSep);
    if dotIndex > sepIndex && HasNonDot(p, sepIndex + 1, dotIndex) then
      assert p[..dotIndex] + p[dotIndex..] == p;
      (p[..dotIndex], p[dotIndex..])
    else
      assert p + [] == p;
      (p, [])
  }

  /** The extension part of `splitext`. */
  function Extension(p: string): (e: string)
    ensures IsExtension(e)
    ensures |e| <= |p| && p[|p| - |e|..] == e
  {
    var r := SplitExt(p);
    assert p[|p| - |r.1|..] == r.1 by { assert p == r.0 + r.1; }
    r.1
  }

  /** `splitext` splits at a dot `d` when no dot follows it, no separator
      follows some non-dot character `k` before it. */
  lemma SplitExtAt(p: string, d: int, k: int)
    requires 0 <= k < d < |p|
    requires p[d] == ExtSep && p[k] != ExtSep
    requires forall j :: k <= j < |p| ==> p[j] != Sep
    requires forall j :: d < j < |p| ==> p[j] != ExtSep
    ensures SplitExt(p) == (p[..d], p[d..])
  {
    var sepIndex := LastIndexOf(p, Sep);
    LastIndexOfIsLast(p, ExtSep);
    assert LastIndexOf(p, ExtSep) == d;
    assert sepIndex < k;
    HasNonDotAt(p, sepIndex + 1, d, k);
  }

  /** A file name made of a stem that has a non-dot character and a dotted
      suffix, under any directory, splits between the stem and the suffix. */
  lemma SplitExtIn(dir: string, stem: string, ext: string)
    requires dir == [] || dir[|dir| - 1] == Sep
    requires Sep !in stem
    requires exists k :: 0 <= k < |stem| && stem[k] != ExtSep
    requires |ext| > 0 && IsExtension(ext)
    ensures SplitExt(dir + stem + ext) == (dir + stem, ext)
  {
    var p := dir + stem + ext;
    var d := |dir| + |stem|;
    var k :| 0 <= k < |stem| && stem[k] != ExtSep;
    assert p[|dir| + k] == stem[k];
    assert forall j :: |dir| + k <= j < |p| ==> p[j] != Sep by {
      forall j | |dir| + k <= j < |p| ensures p[j] != Sep {
        if j < d {
          assert p[j] == stem[j - |dir|];
        } else {
          assert p[j] == ext[j - d];
        }
      }
    }
    assert p[d] == ext[0];
    assert forall j :: d < j < |p| ==> p[j] == ext[j - d];
    SplitExtAt(p, d, |dir| + k);
    assert p[..d] == dir + stem && p[d..] == ext;
  }

  /** A name made of a stem that has a non-dot, non-separator character and a
      dotted suffix splits exactly into those two parts. */
  lemma SplitExtOf(stem: string, ext: string)
    requires Sep !in stem
    requires exists k :: 0 <= k < |stem| && stem[k] != ExtSep
    requires |ext| > 0 && IsExtension(ext)
    ensures SplitExt(stem + ext) == (stem, ext)
  {
    var p := stem + ext;
    assert forall k :: 0 <= k < |p| ==> p[k] != Sep by {
      forall k | 0 <= k < |p| ensures p[k] != Sep {
        if k < |stem| { assert p[k] == stem[k]; } else { assert p[k] == ext[k - |stem|]; }
      }
    }
    var sepIndex := LastIndexOf(p, Sep);
    assert sepIndex == -1;
    var dotIndex := LastIndexOf(p, ExtSep);
    LastIndexOfIsLast(p, ExtSep);
    assert p[|stem|] == ExtSep;
    assert forall k :: |stem| < k < |p| ==> p[k] == ext[k - |stem|];
    assert dotIndex == |stem|;
    var k :| 0 <= k < |stem| && stem[k] != ExtSep;
    assert p[k] == stem[k];
    HasNonDotAt(p, sepIndex + 1, dotIndex, k);
    assert p[..dotIndex] == stem && p[dotIndex..] == ext;
  }

  /** A name without a dot has no extension. */
  lemma SplitExtNoDot(p: string)
    requires ExtSep !in p
    ensures SplitExt(p) == (p, [])
  {
    var dotIndex := LastIndexOf(p, ExtSep);
    assert dotIndex == -1;
  }

  /** A name whose last component is only dots after its final separator, such
      as `.fbx`, has no extension: the leading dot marks a hidden file. */
  lemma SplitExtHidden(dir: string, name: string)
    requires dir == [] || dir[|dir| - 1] == Sep
    requires |name| > 0 && name[0] == ExtSep
    requires forall k :: 1 <= k < |name| ==> name[k] != ExtSep && name[k] != Sep
    ensures SplitExt(dir + name) == (dir + name, [])
  {
    var p := dir + name;
    var sepIndex := LastIndexOf(p, Sep);
    var dotIndex := LastIndexOf(p, ExtSep);
    LastIndexOfIsLast(p, Sep);
    LastIndexOfIsLast(p, ExtSep);
    assert p[|dir|] == ExtSep;
    assert forall k :: |dir| < k < |p| ==> p[k] == name[k - |dir|];
    assert dotIndex == |dir|;
    if dir != [] {
      assert p[|dir| - 1] == Sep;
      assert sepIndex == |dir| - 1;
    } else {
      assert sepIndex == -1;
    }
    assert !HasNonDot(p, sepIndex + 1, dotIndex);
  }

  /** `s.rstrip('/')`. */
  function StripTrailingSeps(s: string): (r: string)
    ensures r <= s
    ensures r == [] || r[|r| - 1] != Sep
    ensures forall k :: |r| <= k < |s| ==> s[k] == Sep
  {
    if s == [] || s[|s| - 1] != Sep then s else StripTrailingSeps(s[..|s| - 1])
  }

  /** `os.path.dirname(p)`: everything up to the last separator, with trailing
      separators removed unless the head is made of separators only. */
  function DirName(p: string): (r: string)
    ensures r <= p
    ensures r == [] || r[|r| - 1] != Sep || forall k :: 0 <= k < |r| ==> r[k] == Sep
  {
    var head := p[..LastIndexOf(p, Sep) + 1];
    if head != [] && exists k :: 0 <= k < |head| && head[k] != Sep then StripTrailingSeps(head)
    else head
  }

  /** Joining a directory that does not end in a separator with a plain file
      name, then taking the directory part, gives the directory back. */
  lemma DirNameOfJoin(dir: string, name: string)
    requires dir != [] && dir[|dir| - 1] != Sep
    requires Sep !in name
    ensures Join(dir, name) == dir + [Sep] + name
    ensures DirName(Join(dir, name)) == dir
  {
    var p := dir + [Sep] + name;
    assert p[|dir|] == Sep;
    LastIndexOfIsLast(p, Sep);
    assert forall k :: |dir| < k < |p| ==> p[k] == name[k - |dir| - 1] && p[k] != Sep;
    assert LastIndexOf(p, Sep) == |dir|;
    var head := p[..|dir| + 1];
    assert head == dir + [Sep];
    assert head[|dir| - 1] != Sep;
    assert StripTrailingSeps(head) == dir;
  }

  /** A plain file name joined to any directory `dirname` can return lands in
      that directory: `dirname(join(dirname(p), name)) == dirname(p)`. */
  lemma DirNameOfJoinFile(dir: string, name: string)
    requires dir == [] || dir[|dir| - 1] != Sep || forall k :: 0 <= k < |dir| ==> dir[k] == Sep
    requires Sep !in name
    ensures DirName(Join(dir, name)) == dir
  {
    if dir == [] {
      assert Join(dir, name) == name;
      assert LastIndexOf(name, Sep) == -1;
    } else if dir[|dir| - 1] != Sep {
      DirNameOfJoin(dir, name);
    } else {
      var p := dir + name;
      assert Join(dir, name) == p;
      LastIndexOfIsLast(p, Sep);
      assert p[|dir| - 1] == Sep;
      assert forall k :: |dir| <= k < |p| ==> p[k] == name[k - |dir|] && p[k] != Sep;
      assert LastIndexOf(p, Sep) == |dir| - 1;
      assert p[..|dir|] == dir;
    }
  }

  /** Python's `t in s` on strings: `t` occurs in `s` as a contiguous run. */
  predicate Contains(s: string, t: string)
    ensures Contains(s, t) ==> |t| <= |s|
    decreases |s|
  {
    t <= s || (s != [] && Contains(s[1..], t))
  }

  /** `any(t in s for s in list)`. */
  predicate AnyContains(t: string, list: seq<string>)
    decreases |list|
  {
    list != [] && (Contains(list[0], t) || AnyContains(t, list[1..]))
  }

  /** `any(t in s for s in list)` holds exactly when some entry of the list
      contains `t`. */
  lemma {:induction false} AnyContainsExists(t: string, list: seq<string>)
    ensures AnyContains(t, list) <==> exists s :: s in list && Contains(s, t)
    decreases |list|
  {
    if list != [] {
      AnyContainsExists(t, list[1..]);
      if Contains(list[0], t) {
        assert list[0] in list;
      } else if AnyContains(t, list[1..]) {
        var s :| s in list[1..] && Contains(s, t);
        assert s in list;
      } else {
        assert forall s :: s in list ==> s == list[0] || s in list[1..];
      }
    }
  }

  /** `t` is the slice of `s` that starts at `k`. */
  predicate OccursAt(s: string, t: string, k: int) {
    0 <= k && k + |t| <= |s| && s[k..k + |t|] == t
  }

  /** `t in s` holds exactly when `t` is the slice of `s` at some position. */
  lemma {:induction false} ContainsOccurs(s: string, t: string)
    ensures Contains(s, t) <==> exists k :: OccursAt(s, t, k)
    decreases |s|
  {
    if s != [] {
      ContainsOccurs(s[1..], t);
      if Contains(s[1..], t) {
        var k :| OccursAt(s[1..], t, k);
        assert s[k + 1..k + 1 + |t|] == s[1..][k..k + |t|];
        assert OccursAt(s, t, k + 1);
      }
      if t <= s {
        assert OccursAt(s, t, 0);
      }
      if exists k :: OccursAt(s, t, k) {
        var k :| OccursAt(s, t, k);
        if k == 0 {
          assert t <= s;
        } else {
          assert s[1..][k - 1..k - 1 + |t|] == s[k..k + |t|];
          assert OccursAt(s[1..], t, k - 1);
        }
      }
    } else {
      if exists k :: OccursAt(s, t, k) {
        var k :| OccursAt(s, t, k);
        assert t == [];
      }
      if t == [] {
        assert OccursAt(s, t, 0);
      }
    }
  }

  /** An allow-list entry of the scripts: a dot followed by non-dot characters. */
  predicate IsDottedSuffix(s: string) {
    |s| > 0 && s[0] == ExtSep && forall k :: 1 <= k < |s| ==> s[k] != ExtSep
  }

  /** A string that starts with a dot does not occur in one without dots. */
  lemma {:induction false} DottedNotInDotless(u: string, t: string)
    requires |t| > 0 && t[0] == ExtSep
    requires ExtSep !in u
    ensures !Contains(u, t)
    decreases |u|
  {
    if u != [] {
      assert u[0] != ExtSep;
      DottedNotInDotless(u[1..], t);
    }
  }

  /** For an extension and an entry that are both dotted, occurring in the
      entry is the same as being a prefix of it. */
  lemma ContainsIsPrefix(s: string, ext: string)
    requires IsDottedSuffix(s)
    requires IsExtension(ext)
    ensures Contains(s, ext) <==> ext <= s
  {
    if ext != [] && s != [] {
      assert ExtSep !in s[1..] by {
        forall k | 0 <= k < |s[1..]| ensures s[1..][k] != ExtSep {
          assert s[1..][k] == s[k + 1];
        }
      }
      DottedNotInDotless(s[1..], ext);
    }
  }

  /** The central fact about the scripts' extension filters: for an extension
      produced by `splitext` and entries that are dotted suffixes, substring
      containment is the same as being a prefix of some entry. So the empty
      extension passes whenever the list is non-empty, and `.c` passes a list
      holding `.cs`. */
  lemma {:induction false} ContainmentIsPrefix(ext: string, list: seq<string>)
    requires IsExtension(ext)
    requires forall s :: s in list ==> IsDottedSuffix(s)
    ensures AnyContains(ext, list) <==> exists s :: s in list && ext <= s
    decreases |list|
  {
    if list != [] {
      ContainsIsPrefix(list[0], ext);
      ContainmentIsPrefix(ext, list[1..]);
      if AnyContains(ext, list) {
        if Contains(list[0], ext) {
          assert list[0] in list && ext <= list[0];
        } else {
          var s :| s in list[1..] && ext <= s;
          assert s in list;
        }
      }
      if exists s :: s in list && ext <= s {
        var s :| s in list && ext <= s;
        if s != list[0] {
          assert list == [list[0]] + list[1..];
          assert s in list[1..];
        }
      }
    }
  }

  /** `s.split(c)` for a single-character separator: the pieces between the
      occurrences of `c`. */
  function Split(s: string, c: char): (r: seq<string>)
    ensures |r| > 0
    ensures forall k :: 0 <= k < |r| ==> c !in r[k]
    decreases |s|
  {
    var i := FirstIndex(s, c);
    if i == |s| then [s] else [s[..i]] + Split(s[i + 1..], c)
  }

  /** Splitting a piece without the separator, followed by the separator and
      more text, peels that piece off. */
  lemma SplitFirst(a: string, c: char, b: string)
    requires c !in a
    ensures Split(a + [c] + b, c) == [a] + Split(b, c)
  {
    var s := a + [c] + b;
    assert s[|a|] == c;
    assert forall k :: 0 <= k < |a| ==> s[k] == a[k];
    assert FirstIndex(s, c) == |a|;
    assert s[..|a|] == a && s[|a| + 1..] == b;
  }

  /** A piece without the separator is not split. */
  lemma SplitNone(a: string, c: char)
    requires c !in a
    ensures Split(a, c) == [a]
  {
    assert FirstIndex(a, c) == |a|;
  }

  /** `c.join(pieces)` for a non-empty list of pieces. */
  function JoinWith(c: char, pieces: seq<string>): string
    requires |pieces| > 0
    decreases |pieces|
  {
    if |pieces| == 1 then pieces[0] else pieces[0] + [c] + JoinWith(c, pieces[1..])
  }

  /** Splitting undoes joining when no piece holds the separator. */
  lemma {:induction false} SplitJoinWith(c: char, pieces: seq<string>)
    requires |pieces| > 0
    requires forall k :: 0 <= k < |pieces| ==> c !in pieces[k]
    ensures Split(JoinWith(c, pieces), c) == pieces
    decreases |pieces|
  {
    if |pieces| == 1 {
      SplitNone(pieces[0], c);
    } else {
      SplitJoinWith(c, pieces[1..]);
      SplitFirst(pieces[0], c, JoinWith(c, pieces[1..]));
      assert pieces == [pieces[0]] + pieces[1..];
    }
  }

  function LowerChar(c: char): char {
    if 'A' <= c <= 'Z' then (c as int + 32) as char else c
  }

  /** `str.lower()` on ASCII letters. */
  function Lower(s: string): (r: string)
    ensures |r| == |s|
    ensures forall k :: 0 <= k < |s| ==> r[k] == LowerChar(s[k])
  {
    seq(|s|, k requires 0 <= k < |s| => LowerChar(s[k]))
  }

  /** Lower-casing works character by character, so it distributes over
      concatenation. */
  lemma LowerAppend(a: string, b: string)
    ensures Lower(a + b) == Lower(a) + Lower(b)
  {
    var l := Lower(a + b);
    assert forall k :: 0 <= k < |a| ==> l[k] == LowerChar(a[k]);
    assert forall k :: |a| <= k < |l| ==> l[k] == LowerChar(b[k - |a|]);
  }

  /** Lower-casing twice changes nothing more. */
  lemma LowerIdempotent(s: string)
    ensures Lower(Lower(s)) == Lower(s)
  {
    forall k | 0 <= k < |s| ensures Lower(Lower(s))[k] == Lower(s)[k] {
      var c := s[k];
      if 'A' <= c <= 'Z' {
        assert 'a' <= LowerChar(c) <= 'z';
      }
    }
  }

  /** `s.replace(c, '')` for a single character. */
  function RemoveAll(s: string, c: char): (r: string)
    ensures c !in r
    ensures |r| <= |s|
    ensures forall x :: x in r ==> x in s
    ensures c !in s ==> r == s
  {
    if s == [] then []
    else if s[0] == c then RemoveAll(s[1..], c)
    else [s[0]] + RemoveAll(s[1..], c)
  }

  /** Removing a character distributes over concatenation. */
  lemma {:induction false} RemoveAllAppend(a: string, b: string, c: char)
    ensures RemoveAll(a + b, c) == RemoveAll(a, c) + RemoveAll(b, c)
  {
    if a == [] {
      assert a + b == b;
    } else {
      assert (a + b)[0] == a[0] && (a + b)[1..] == a[1..] + b;
      RemoveAllAppend(a[1..], b, c);
    }
  }

  /** Joining a directory that does not end in a separator with a relative
      name puts one separator between them. */
  lemma JoinPlain(dir: string, name: string)
    requires dir != [] && dir[|dir| - 1] != Sep
    requires !IsAbsolute(name)
    ensures Join(dir, name) == dir + [Sep] + name
  {
  }
}
