/** Shell-style wildcard matching as `fnmatch.filter` performs it on POSIX
    (case-sensitive): `*` matches any run of characters, `?` any one
    character, every other character itself. */
module Glob {

  predicate IsWildcard(c: char) {
    c == '*' || c == '?'
  }

  predicate IsLiteral(pattern: string) {
    forall i :: 0 <= i < |pattern| ==> !IsWildcard(pattern[i])
  }

  /** Does `name` match the whole of `pattern`? */
  predicate Matches(pattern: string, name: string)
    decreases |pattern| + |name|
  {
    if |pattern| == 0 then |name| == 0
    else if pattern[0] == '*' then
      Matches(pattern[1..], name) || (|name| > 0 && Matches(pattern, name[1..]))
    else
      |name| > 0 && (pattern[0] == '?' || pattern[0] == name[0]) && Matches(pattern[1..], name[1..])
  }

  /** `fnmatch.filter(names, pattern)`: the names that match, each as often
      as it occurs in `names`; `FilterAppend` states that their order is
      kept. */
  function Filter(names: seq<string>, pattern: string): (r: seq<string>)
    ensures |r| <= |names|
    ensures forall n :: n in r <==> n in names && Matches(pattern, n)
    ensures forall n :: multiset(r)[n] == if Matches(pattern, n) then multiset(names)[n] else 0
    ensures (forall i, j :: 0 <= i < j < |names| ==> names[i] != names[j]) ==>
      forall i, j :: 0 <= i < j < |r| ==> r[i] != r[j]
  {
    if |names| == 0 then []
    else
      assert names == [names[0]] + names[1..];
      if Matches(pattern, names[0]) then [names[0]] + Filter(names[1..], pattern)
      else Filter(names[1..], pattern)
  }

  /** The names are filtered one at a time, so the matching names of a
      list keep their relative order. */
  lemma {:induction false} FilterAppend(a: seq<string>, b: seq<string>, pattern: string)
    ensures Filter(a + b, pattern) == Filter(a, pattern) + Filter(b, pattern)
  {
    if |a| == 0 {
      assert a + b == b;
    } else {
      assert (a + b)[0] == a[0];
      assert (a + b)[1..] == a[1..] + b;
      FilterAppend(a[1..], b, pattern);
    }
  }

  /** A pattern without wildcards matches exactly itself. */
  lemma {:induction false} LiteralMatchesOnlyItself(pattern: string, name: string)
    requires IsLiteral(pattern)
    ensures Matches(pattern, name) <==> name == pattern
  {
    if |pattern| > 0 && |name| > 0 {
      LiteralMatchesOnlyItself(pattern[1..], name[1..]);
      assert name == pattern <==> (name[0] == pattern[0] && name[1..] == pattern[1..]) by {
        if name[0] == pattern[0] && name[1..] == pattern[1..] {
          assert name == [name[0]] + name[1..];
          assert pattern == [pattern[0]] + pattern[1..];
        }
      }
    }
  }

  /** A lone `*` matches every name. */
  lemma {:induction false} StarMatchesAll(name: string)
    ensures Matches("*", name)
  {
    assert "*"[1..] == "";
    if |name| > 0 {
      StarMatchesAll(name[1..]);
    }
  }

  /** A literal prefix followed by `*` (as in `web-*`) matches exactly the
      names that start with that prefix. */
  lemma {:induction false} PrefixStarMatchesPrefixed(prefix: string, name: string)
    requires IsLiteral(prefix)
    ensures Matches(prefix + "*", name) <==> prefix <= name
  {
    if |prefix| == 0 {
      assert prefix + "*" == "*";
      StarMatchesAll(name);
    } else {
      var p := prefix + "*";
      assert p[0] == prefix[0] && p[1..] == prefix[1..] + "*";
      if |name| > 0 {
        PrefixStarMatchesPrefixed(prefix[1..], name[1..]);
        assert prefix <= name <==> (prefix[0] == name[0] && prefix[1..] <= name[1..]);
      }
    }
  }
}
