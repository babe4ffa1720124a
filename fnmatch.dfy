/** Shell-style wildcard matching as `fnmatch.fnmatch` does it on a POSIX
    system: case-sensitive, `*` matches any run of characters (separators
    included), `?` matches exactly one, and every other character matches
    itself; the whole name must be matched. */
module FnMatch {

  const Star: char := '*'
  const AnyOne: char := '?'

  /** No wildcard in `pattern`. */
  predicate IsLiteral(pattern: string) {
    Star !in pattern && AnyOne !in pattern
  }

  /** `fnmatch.fnmatch(name, pattern)`. Whatever the pattern, a match
      consumes at least one character per non-star pattern character. */
  predicate Match(name: string, pattern: string)
    ensures Match(name, pattern) ==> |name| >= |pattern| - StarCount(pattern)
    decreases |name| + |pattern|
  {
    if pattern == [] then name == []
    else if pattern[0] == Star then
      Match(name, pattern[1..]) || (name != [] && Match(name[1..], pattern))
    else if pattern[0] == AnyOne then
      name != [] && Match(name[1..], pattern[1..])
    else
      name != [] && name[0] == pattern[0] && Match(name[1..], pattern[1..])
  }

  /** A pattern without wildcards matches exactly the name it spells. */
  lemma {:induction false} LiteralMatch(name: string, pattern: string)
    requires IsLiteral(pattern)
    ensures Match(name, pattern) <==> name == pattern
    decreases |pattern|
  {
    if pattern != [] && name != [] {
      assert IsLiteral(pattern[1..]);
      LiteralMatch(name[1..], pattern[1..]);
      if name != [] && name[0] == pattern[0] && name[1..] == pattern[1..] {
        assert name == [name[0]] + name[1..] && pattern == [pattern[0]] + pattern[1..];
      }
    }
  }

  /** `*` alone matches every name. */
  lemma {:induction false} StarMatchesAll(name: string)
    ensures Match(name, [Star])
    decreases |name|
  {
    if name != [] {
      StarMatchesAll(name[1..]);
    }
  }

  /** `prefix*` with a literal prefix matches exactly the names that start
      with the prefix. */
  lemma {:induction false} PrefixStar(name: string, prefix: string)
    requires IsLiteral(prefix)
    ensures Match(name, prefix + [Star]) <==> prefix <= name
    decreases |prefix|
  {
    if prefix == [] {
      assert prefix + [Star] == [Star];
      StarMatchesAll(name);
    } else {
      var pattern := prefix + [Star];
      assert pattern[0] == prefix[0] && pattern[1..] == prefix[1..] + [Star];
      assert IsLiteral(prefix[1..]);
      if name != [] {
        PrefixStar(name[1..], prefix[1..]);
        if name[0] == prefix[0] && prefix[1..] <= name[1..] {
          assert prefix == [prefix[0]] + prefix[1..];
          assert name == [name[0]] + name[1..];
        }
      }
    }
  }

  /** A pattern of `k` question marks matches exactly the names of length `k`. */
  lemma {:induction false} QuestionMarks(name: string, pattern: string)
    requires forall k :: 0 <= k < |pattern| ==> pattern[k] == AnyOne
    ensures Match(name, pattern) <==> |name| == |pattern|
    decreases |pattern|
  {
    if pattern != [] && name != [] {
      QuestionMarks(name[1..], pattern[1..]);
    }
  }

  /** The number of `*` in a pattern. */
  function StarCount(pattern: string): (n: nat)
    ensures n <= |pattern|
  {
    if pattern == [] then 0
    else (if pattern[0] == Star then 1 else 0) + StarCount(pattern[1..])
  }
}
