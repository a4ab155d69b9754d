/** Key derivation and `find_attachments`: a document belongs to the PAN that
    precedes the first '_' in its name. */
module Matching {
  import opened Text
  import opened Archive

  /** A document name's key: the text before the first '_', stripped of
      surrounding whitespace (the whole stripped name when there is no '_'). */
  function Key(name: string): string {
    Trim(BeforeFirst(name, '_'))
  }

  /** Names follow the convention `<KEY>_<anything>`; whitespace around the key
      is ignored, and the key is recovered exactly. */
  lemma KeyOfConventionalName(pre: string, key: string, post: string, rest: string)
    requires AllSpace(pre) && AllSpace(post) && NoEdgeSpace(key) && '_' !in key
    ensures Key(pre + key + post + "_" + rest) == key
  {
    var name := pre + key + post + "_" + rest;
    var head := pre + key + post;
    assert name == head + ("_" + rest);
    assert name[|head|] == '_';
    assert forall k :: 0 <= k < |head| ==> name[k] == head[k];
    assert forall k :: 0 <= k < |pre| ==> head[k] == pre[k];
    assert forall k :: |pre| <= k < |pre| + |key| ==> head[k] == key[k - |pre|];
    assert forall k :: |pre| + |key| <= k < |head| ==> head[k] == post[k - |pre| - |key|];
    BeforeFirstIs(name, '_', |head|);
    assert name[..|head|] == head;
    TrimExact(pre, key, post);
  }

  /** A name without '_' is its own key, once stripped. */
  lemma KeyWithoutSeparator(name: string)
    requires '_' !in name
    ensures Key(name) == Trim(name)
  {
    BeforeFirstIs(name, '_', |name|);
    assert name[..|name|] == name;
  }

  /** `BeforeFirst` stops at the first occurrence of the separator. */
  lemma BeforeFirstIs(s: string, c: char, n: nat)
    requires n <= |s|
    requires forall k :: 0 <= k < n ==> s[k] != c
    requires n < |s| ==> s[n] == c
    ensures BeforeFirst(s, c) == s[..n]
  {
    BeforeFirstSpec(s, c);
  }

  /** The elements of `s` that satisfy `p`, in order. */
  function Filter<T>(s: seq<T>, p: T -> bool): seq<T> {
    if |s| == 0 then []
    else Filter(s[..|s| - 1], p) + (if p(s[|s| - 1]) then [s[|s| - 1]] else [])
  }

  /** The test `find_attachments` applies to each document. */
  function KeyIs(pan: string): Document -> bool {
    (d: Document) => Key(d.name) == pan
  }

  /** The documents of `pool` whose key is `pan`, in pool order. */
  function Matches(pool: seq<Document>, pan: string): seq<Document> {
    Filter(pool, KeyIs(pan))
  }

  /** `find_attachments`: the loop over the pool that appends each document
      whose key equals the PAN. */
  method FindAttachments(pool: seq<Document>, pan: string) returns (matched: seq<Document>)
    ensures matched == Matches(pool, pan)
  {
    matched := [];
    for i := 0 to |pool|
      invariant matched == Filter(pool[..i], KeyIs(pan))
    {
      var file := pool[i];
      var namePart := Trim(BeforeFirst(file.name, '_'));
      assert KeyIs(pan)(file) == (namePart == pan);
      if namePart == pan {
        matched := matched + [file];
      }
      assert pool[..i + 1][..i] == pool[..i];
      assert pool[..i + 1][i] == file;
    }
    assert pool[..|pool|] == pool;
  }

  /** `a` is `b` with some elements left out, the rest in their order. */
  predicate IsSubsequence<T(==)>(a: seq<T>, b: seq<T>)
    decreases |b|
  {
    if |a| == 0 then true
    else if |b| == 0 then false
    else
      (a[|a| - 1] == b[|b| - 1] && IsSubsequence(a[..|a| - 1], b[..|b| - 1])) ||
      IsSubsequence(a, b[..|b| - 1])
  }

  lemma {:induction false} FilterSubsequence<T>(s: seq<T>, p: T -> bool)
    ensures IsSubsequence(Filter(s, p), s)
  {
    if |s| > 0 {
      var init := s[..|s| - 1];
      var m := Filter(s, p);
      FilterSubsequence(init, p);
      if p(s[|s| - 1]) {
        assert m[..|m| - 1] == Filter(init, p);
        assert m[|m| - 1] == s[|s| - 1];
        assert IsSubsequence(m[..|m| - 1], s[..|s| - 1]);
      } else {
        assert m == Filter(init, p);
      }
    }
  }

  lemma {:induction false} FilterExact<T>(s: seq<T>, p: T -> bool)
    ensures forall x :: multiset(Filter(s, p))[x] == if p(x) then multiset(s)[x] else 0
  {
    if |s| > 0 {
      var init := s[..|s| - 1];
      var last := s[|s| - 1];
      var hit := if p(last) then [last] else [];
      FilterExact(init, p);
      assert s == init + [last];
      assert multiset(s) == multiset(init) + multiset{last};
      assert multiset(Filter(s, p)) == multiset(Filter(init, p)) + multiset(hit);
    }
  }

  lemma {:induction false} FilterAppend<T>(a: seq<T>, b: seq<T>, p: T -> bool)
    ensures Filter(a + b, p) == Filter(a, p) + Filter(b, p)
  {
    if |b| == 0 {
      assert a + b == a;
    } else {
      var b' := b[..|b| - 1];
      assert (a + b)[..|a + b| - 1] == a + b';
      FilterAppend(a, b', p);
    }
  }

  /** The matches keep the pool's order: they are a subsequence of it. */
  lemma MatchesSubsequence(pool: seq<Document>, pan: string)
    ensures IsSubsequence(Matches(pool, pan), pool)
  {
    FilterSubsequence(pool, KeyIs(pan));
  }

  /** The matches are exactly the pool's documents with key `pan`, each as often
      as it occurs in the pool: nothing else is returned, nothing is dropped and
      nothing is duplicated. */
  lemma MatchesExact(pool: seq<Document>, pan: string)
    ensures forall d :: multiset(Matches(pool, pan))[d] ==
                        if Key(d.name) == pan then multiset(pool)[d] else 0
  {
    FilterExact(pool, KeyIs(pan));
    forall d
      ensures multiset(Matches(pool, pan))[d] == if Key(d.name) == pan then multiset(pool)[d] else 0
    {
      assert KeyIs(pan)(d) == (Key(d.name) == pan);
    }
  }

  /** Membership form of MatchesExact. */
  lemma MatchesMembership(pool: seq<Document>, pan: string)
    ensures forall d :: d in Matches(pool, pan) <==> d in pool && Key(d.name) == pan
  {
    MatchesExact(pool, pan);
    forall d
      ensures d in Matches(pool, pan) <==> d in pool && Key(d.name) == pan
    {
      assert d in Matches(pool, pan) <==> multiset(Matches(pool, pan))[d] > 0;
      assert d in pool <==> multiset(pool)[d] > 0;
    }
  }

  /** A one-document pool matches exactly when the document's key is the PAN;
      with MatchesAppend this determines Matches. */
  lemma MatchesSingle(d: Document, pan: string)
    ensures Matches([d], pan) == if Key(d.name) == pan then [d] else []
  {
    assert [d][..0] == [];
    assert KeyIs(pan)(d) == (Key(d.name) == pan);
    assert Filter([d], KeyIs(pan)) == Filter([], KeyIs(pan)) + (if KeyIs(pan)(d) then [d] else []);
  }

  /** Matching a pool built from two parts matches each part in turn. */
  lemma MatchesAppend(a: seq<Document>, b: seq<Document>, pan: string)
    ensures Matches(a + b, pan) == Matches(a, pan) + Matches(b, pan)
  {
    FilterAppend(a, b, KeyIs(pan));
  }
}
