/** The list helpers the transport uses while parsing id lists: append an id,
    or an `(id, version)` pair, unless it is already there. */
module ServerHelpers {
  import opened Osm
  import opened Db

  /** Linear search, then append when absent. */
  method AppendUnique<T(==)>(s: seq<T>, x: T) returns (r: seq<T>)
    ensures x in s ==> r == s
    ensures x !in s ==> r == s + [x]
    ensures x in r && |r| <= |s| + 1 && r[..|s|] == s
    ensures Distinct(s) ==> Distinct(r)
  {
    var k := 0;
    while k < |s|
      invariant 0 <= k <= |s|
      invariant x !in s[..k]
    {
      if s[k] == x {
        return s;
      }
      assert s[..k + 1] == s[..k] + [s[k]];
      k := k + 1;
    }
    assert s[..|s|] == s;
    r := s + [x];
    assert r[..|s|] == s;
  }

  /** `appendIfUnique` on ids. */
  method AppendIfUnique(s: seq<Id>, i: Id) returns (r: seq<Id>)
    ensures i in s ==> r == s
    ensures i !in s ==> r == s + [i]
    ensures i in r && |r| <= |s| + 1 && r[..|s|] == s
    ensures Distinct(s) ==> Distinct(r)
  {
    r := AppendUnique(s, i);
  }

  /** `appendVersionIfUnique` on pairs: a pair repeats only when both the id
      and the version match. */
  method AppendVersionIfUnique(s: seq<VersionKey>, i: VersionKey) returns (r: seq<VersionKey>)
    ensures i in s ==> r == s
    ensures i !in s ==> r == s + [i]
    ensures i in r && |r| <= |s| + 1 && r[..|s|] == s
    ensures Distinct(s) ==> Distinct(r)
  {
    r := AppendUnique(s, i);
  }

  /** Reference definition of folding the helper over a token list: the tokens
      in order of first appearance, each once. */
  function FirstSeen<T(==)>(tokens: seq<T>): (r: seq<T>)
    decreases |tokens|
  {
    if |tokens| == 0 then []
    else
      var front := FirstSeen(tokens[..|tokens| - 1]);
      if tokens[|tokens| - 1] in front then front else front + [tokens[|tokens| - 1]]
  }

  /** The reference fold keeps every token, drops every repetition and
      extends as the token list grows. */
  lemma {:induction false} FirstSeenProperties<T>(tokens: seq<T>)
    ensures Distinct(FirstSeen(tokens))
    ensures Elems(FirstSeen(tokens)) == Elems(tokens)
    ensures |FirstSeen(tokens)| <= |tokens|
    decreases |tokens|
  {
    if |tokens| > 0 {
      var last := |tokens| - 1;
      var front := tokens[..last];
      FirstSeenProperties(front);
      assert tokens == front + [tokens[last]];
      assert Elems(tokens) == Elems(front) + {tokens[last]};
    }
  }

  /** Once a token has been kept, later tokens never move it: the fold of a
      prefix is a prefix of the fold. */
  lemma {:induction false} FirstSeenPrefix<T>(tokens: seq<T>, n: nat)
    requires n <= |tokens|
    ensures |FirstSeen(tokens[..n])| <= |FirstSeen(tokens)|
    ensures FirstSeen(tokens)[..|FirstSeen(tokens[..n])|] == FirstSeen(tokens[..n])
    decreases |tokens| - n
  {
    if n < |tokens| {
      var next := tokens[..n + 1];
      assert next[..n] == tokens[..n];
      assert FirstSeen(next)[..|FirstSeen(tokens[..n])|] == FirstSeen(tokens[..n]);
      FirstSeenPrefix(tokens, n + 1);
    } else {
      assert tokens[..n] == tokens;
    }
  }

  /** Folding `appendIfUnique` over a token list computes the reference fold. */
  method Dedup(tokens: seq<Id>) returns (r: seq<Id>)
    ensures r == FirstSeen(tokens)
    ensures Distinct(r) && Elems(r) == Elems(tokens)
  {
    r := [];
    var k := 0;
    while k < |tokens|
      invariant 0 <= k <= |tokens|
      invariant r == FirstSeen(tokens[..k])
    {
      assert tokens[..k + 1][..k] == tokens[..k];
      r := AppendIfUnique(r, tokens[k]);
      k := k + 1;
    }
    assert tokens[..|tokens|] == tokens;
    FirstSeenProperties(tokens);
  }

  /** The same fold over `(id, version)` pairs. */
  method DedupVersions(tokens: seq<VersionKey>) returns (r: seq<VersionKey>)
    ensures r == FirstSeen(tokens)
    ensures Distinct(r) && Elems(r) == Elems(tokens)
  {
    r := [];
    var k := 0;
    while k < |tokens|
      invariant 0 <= k <= |tokens|
      invariant r == FirstSeen(tokens[..k])
    {
      assert tokens[..k + 1][..k] == tokens[..k];
      r := AppendVersionIfUnique(r, tokens[k]);
      k := k + 1;
    }
    assert tokens[..|tokens|] == tokens;
    FirstSeenProperties(tokens);
  }
}
