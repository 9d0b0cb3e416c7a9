/** The content digest of a source file: the hash of its text followed by the digests
    of the files it includes.  Cached results are looked up by this digest, so it must
    change exactly when something in the include closure changes. */
module IncludeHash {
  datatype Option<+T> = None | Some(value: T)

  /** The loaded files, and for each the base names it includes, in order. */
  datatype Files = Files(text: map<string, string>, includes: map<string, seq<string>>)

  /** The text hash. */
  type Hash = string -> string

  /** A ranking of the files that shows that includes do not form a cycle. */
  type Rank = string -> nat

  ghost predicate Acyclic(fs: Files, rank: Rank) {
    && fs.text.Keys == fs.includes.Keys
    && forall f, g :: f in fs.includes && g in fs.includes[f] ==> rank(g) < rank(f)
  }

  function Concat(ss: seq<string>): string {
    if ss == [] then "" else ss[0] + Concat(ss[1..])
  }

  /** The digest of a file, or None when a file in its closure is missing. */
  ghost function Digest(fs: Files, h: Hash, rank: Rank, f: string): Option<string>
    requires Acyclic(fs, rank)
    decreases rank(f), 1, 0
  {
    if f !in fs.includes then None
    else
      match Digests(fs, h, rank, fs.includes[f], rank(f))
      case None => None
      case Some(ds) => Some(h(fs.text[f] + Concat(ds)))
  }

  ghost function Digests(fs: Files, h: Hash, rank: Rank, names: seq<string>, bound: nat): Option<seq<string>>
    requires Acyclic(fs, rank) && forall g :: g in names ==> rank(g) < bound
    decreases bound, 0, |names|
  {
    if names == [] then Some([])
    else
      match (Digest(fs, h, rank, names[0]), Digests(fs, h, rank, names[1..], bound))
      case (Some(d), Some(ds)) => Some([d] + ds)
      case _ => None
  }

  // ---------- what is hashed ----------

  lemma {:induction false} DigestsInOrder(fs: Files, h: Hash, rank: Rank, names: seq<string>, bound: nat)
    requires Acyclic(fs, rank) && forall g :: g in names ==> rank(g) < bound
    ensures Digests(fs, h, rank, names, bound).Some? <==>
              forall i :: 0 <= i < |names| ==> Digest(fs, h, rank, names[i]).Some?
    ensures Digests(fs, h, rank, names, bound).Some? ==>
              var ds := Digests(fs, h, rank, names, bound).value;
              |ds| == |names| && forall i :: 0 <= i < |names| ==> Digest(fs, h, rank, names[i]) == Some(ds[i])
    decreases |names|
  {
    if names != [] {
      DigestsInOrder(fs, h, rank, names[1..], bound);
      assert forall i :: 1 <= i < |names| ==> names[i] == names[1..][i - 1];
      assert names == [names[0]] + names[1..];
    }
  }

  lemma {:induction false} ConcatSplit(a: seq<string>, b: seq<string>)
    ensures Concat(a + b) == Concat(a) + Concat(b)
    decreases |a|
  {
    if a == [] {
      assert a + b == b;
    } else {
      assert (a + b)[1..] == a[1..] + b;
      ConcatSplit(a[1..], b);
    }
  }

  /** The text whose hash is the digest: the file's own text, and behind it the digests of
      its includes, each right behind that of the include before. */
  lemma DigestText(fs: Files, h: Hash, rank: Rank, f: string)
    requires Acyclic(fs, rank) && f in fs.includes
    requires forall i :: 0 <= i < |fs.includes[f]| ==> Digest(fs, h, rank, fs.includes[f][i]).Some?
    ensures exists ds: seq<string> ::
              && |ds| == |fs.includes[f]|
              && (forall i :: 0 <= i < |ds| ==> Digest(fs, h, rank, fs.includes[f][i]) == Some(ds[i]))
              && Digest(fs, h, rank, f) == Some(h(fs.text[f] + Concat(ds)))
              && (forall n :: 0 <= n < |ds| ==> Concat(ds[..n + 1]) == Concat(ds[..n]) + ds[n])
  {
    hide Digests;
    DigestsInOrder(fs, h, rank, fs.includes[f], rank(f));
    var ds := Digests(fs, h, rank, fs.includes[f], rank(f)).value;
    forall n | 0 <= n < |ds|
      ensures Concat(ds[..n + 1]) == Concat(ds[..n]) + ds[n]
    {
      ConcatSplit(ds[..n], [ds[n]]);
      assert ds[..n + 1] == ds[..n] + [ds[n]];
    }
  }

  /** For a file with two includes. */
  lemma TwoIncludes(fs: Files, h: Hash, rank: Rank, f: string, d: string, e: string)
    requires Acyclic(fs, rank) && f in fs.includes && |fs.includes[f]| == 2
    requires Digest(fs, h, rank, fs.includes[f][0]) == Some(d) && Digest(fs, h, rank, fs.includes[f][1]) == Some(e)
    ensures Digest(fs, h, rank, f) == Some(h(fs.text[f] + (d + e)))
  {
    DigestsInOrder(fs, h, rank, fs.includes[f], rank(f));
    var ds := Digests(fs, h, rank, fs.includes[f], rank(f)).value;
    hide Digests;
    assert ds == [d] + [e];
    ConcatSplit([d], [e]);
    assert [d][1..] == [] && [e][1..] == [] && d + "" == d && e + "" == e;
  }

  // ---------- only the closure matters ----------

  /** The file sets agree on a set of names that is closed under inclusion. */
  ghost predicate AgreeOn(one: Files, other: Files, names: set<string>) {
    forall f :: f in names ==>
                  && (f in one.includes <==> f in other.includes)
                  && (f in one.text <==> f in other.text)
                  && (f in one.text ==> one.text[f] == other.text[f])
                  && (f in one.includes ==> one.includes[f] == other.includes[f]
                                            && forall g :: g in one.includes[f] ==> g in names)
  }

  /** Edits outside a file's include closure do not change its digest. */
  lemma {:induction false} OnlyClosureMatters(one: Files, other: Files, names: set<string>, h: Hash,
                                              r1: Rank, r2: Rank, f: string)
    requires Acyclic(one, r1) && Acyclic(other, r2) && AgreeOn(one, other, names) && f in names
    ensures Digest(one, h, r1, f) == Digest(other, h, r2, f)
    decreases r1(f), 1, 0
  {
    if f in one.includes {
      ListMatters(one, other, names, h, r1, r2, one.includes[f], r1(f), r2(f));
    }
  }

  lemma {:induction false} ListMatters(one: Files, other: Files, names: set<string>, h: Hash,
                                       r1: Rank, r2: Rank, list: seq<string>, b1: nat, b2: nat)
    requires Acyclic(one, r1) && Acyclic(other, r2) && AgreeOn(one, other, names)
    requires forall g :: g in list ==> g in names && r1(g) < b1 && r2(g) < b2
    ensures Digests(one, h, r1, list, b1) == Digests(other, h, r2, list, b2)
    decreases b1, 0, |list|
  {
    if list != [] {
      OnlyClosureMatters(one, other, names, h, r1, r2, list[0]);
      ListMatters(one, other, names, h, r1, r2, list[1..], b1, b2);
    }
  }

  // ---------- the closure as a tree of texts ----------

  datatype Tree = Node(text: string, children: seq<Tree>)

  /** The texts of the include closure, or None when a file is missing. */
  ghost function TreeOf(fs: Files, rank: Rank, f: string): Option<Tree>
    requires Acyclic(fs, rank)
    decreases rank(f), 1, 0
  {
    if f !in fs.includes then None
    else
      match TreesOf(fs, rank, fs.includes[f], rank(f))
      case None => None
      case Some(ts) => Some(Node(fs.text[f], ts))
  }

  ghost function TreesOf(fs: Files, rank: Rank, names: seq<string>, bound: nat): Option<seq<Tree>>
    requires Acyclic(fs, rank) && forall g :: g in names ==> rank(g) < bound
    decreases bound, 0, |names|
  {
    if names == [] then Some([])
    else
      match (TreeOf(fs, rank, names[0]), TreesOf(fs, rank, names[1..], bound))
      case (Some(t), Some(ts)) => Some([t] + ts)
      case _ => None
  }

  function HashOf(h: Hash, t: Tree): string
    decreases t, 0
  {
    h(t.text + Concat(HashesOf(h, t.children)))
  }

  function HashesOf(h: Hash, ts: seq<Tree>): (ds: seq<string>)
    ensures |ds| == |ts|
    decreases ts, 1, |ts|
  {
    if ts == [] then [] else [HashOf(h, ts[0])] + HashesOf(h, ts[1..])
  }

  /** The digest is the hash of the tree, and fails exactly when there is no tree. */
  lemma {:induction false} DigestHashesTree(fs: Files, h: Hash, rank: Rank, f: string)
    requires Acyclic(fs, rank)
    ensures Digest(fs, h, rank, f) ==
            match TreeOf(fs, rank, f) { case None => None case Some(t) => Some(HashOf(h, t)) }
    decreases rank(f), 1, 0
  {
    if f in fs.includes {
      DigestsHashTrees(fs, h, rank, fs.includes[f], rank(f));
    }
  }

  lemma {:induction false} DigestsHashTrees(fs: Files, h: Hash, rank: Rank, names: seq<string>, bound: nat)
    requires Acyclic(fs, rank) && forall g :: g in names ==> rank(g) < bound
    ensures Digests(fs, h, rank, names, bound) ==
            match TreesOf(fs, rank, names, bound) { case None => None case Some(ts) => Some(HashesOf(h, ts)) }
    decreases bound, 0, |names|
  {
    if names != [] {
      DigestHashesTree(fs, h, rank, names[0]);
      DigestsHashTrees(fs, h, rank, names[1..], bound);
      if TreesOf(fs, rank, names, bound).Some? {
        var ts := TreesOf(fs, rank, names, bound).value;
        assert ts[1..] == TreesOf(fs, rank, names[1..], bound).value;
      }
    }
  }

  // ---------- different closures have different digests ----------

  /** How many include lines a text has. */
  type Count = string -> nat

  /** Digests have one length, and appending a digest to a text adds or removes no
      include line. */
  ghost predicate GoodHash(h: Hash, len: nat, count: Count) {
    && (forall s :: |h(s)| == len)
    && (forall s, t :: count(s + h(t)) == count(s))
  }

  /** No two of these texts have the same hash. */
  ghost predicate NoCollision(h: Hash, hashed: set<string>) {
    forall s, t :: s in hashed && t in hashed && h(s) == h(t) ==> s == t
  }

  /** Everything that is hashed for the tree is among these texts. */
  ghost predicate HashedIn(h: Hash, t: Tree, hashed: set<string>)
    decreases t, 0
  {
    && t.text + Concat(HashesOf(h, t.children)) in hashed
    && forall i :: 0 <= i < |t.children| ==> HashedIn(h, t.children[i], hashed)
  }

  /** The includes of a file are the ones its text names. */
  ghost predicate Parsed(fs: Files, count: Count) {
    && fs.text.Keys == fs.includes.Keys
    && forall f :: f in fs.includes ==> |fs.includes[f]| == count(fs.text[f])
  }

  ghost predicate TreeParsed(t: Tree, count: Count)
    decreases t, 0
  {
    |t.children| == count(t.text) && forall i :: 0 <= i < |t.children| ==> TreeParsed(t.children[i], count)
  }

  lemma {:induction false} TreeOfParsed(fs: Files, rank: Rank, f: string, count: Count)
    requires Acyclic(fs, rank) && Parsed(fs, count) && TreeOf(fs, rank, f).Some?
    ensures TreeParsed(TreeOf(fs, rank, f).value, count)
    decreases rank(f), 1, 0
  {
    TreesOfParsed(fs, rank, fs.includes[f], rank(f), count);
  }

  lemma {:induction false} TreesOfParsed(fs: Files, rank: Rank, names: seq<string>, bound: nat, count: Count)
    requires Acyclic(fs, rank) && Parsed(fs, count) && forall g :: g in names ==> rank(g) < bound
    requires TreesOf(fs, rank, names, bound).Some?
    ensures var ts := TreesOf(fs, rank, names, bound).value;
            |ts| == |names| && forall i :: 0 <= i < |ts| ==> TreeParsed(ts[i], count)
    decreases bound, 0, |names|
  {
    if names != [] {
      TreeOfParsed(fs, rank, names[0], count);
      TreesOfParsed(fs, rank, names[1..], bound, count);
    }
  }

  lemma {:induction false} CountWithDigests(h: Hash, len: nat, count: Count, s: string, ts: seq<Tree>)
    requires GoodHash(h, len, count)
    ensures count(s + Concat(HashesOf(h, ts))) == count(s)
    ensures |Concat(HashesOf(h, ts))| == len * |ts|
    decreases |ts|
  {
    var ds := HashesOf(h, ts);
    if ts == [] {
      assert s + "" == s;
    } else {
      var d := HashOf(h, ts[0]);
      assert ds[1..] == HashesOf(h, ts[1..]);
      var rest := Concat(ds[1..]);
      assert s + (d + rest) == (s + d) + rest;
      CountWithDigests(h, len, count, s + d, ts[1..]);
      assert count(s + d) == count(s);
      assert len * |ts| == len + len * (|ts| - 1);
    }
  }

  /** The digest of a tree determines the tree. */
  lemma {:induction false} HashIsInjective(h: Hash, len: nat, count: Count, hashed: set<string>, t: Tree, u: Tree)
    requires GoodHash(h, len, count) && TreeParsed(t, count) && TreeParsed(u, count)
    requires NoCollision(h, hashed) && HashedIn(h, t, hashed) && HashedIn(h, u, hashed)
    requires HashOf(h, t) == HashOf(h, u)
    ensures t == u
    decreases t, 0
  {
    var a, b := Concat(HashesOf(h, t.children)), Concat(HashesOf(h, u.children));
    assert t.text + a == u.text + b;
    CountWithDigests(h, len, count, t.text, t.children);
    CountWithDigests(h, len, count, u.text, u.children);
    assert |a| == |b|;
    assert (t.text + a)[..|t.text|] == t.text && (t.text + a)[|t.text|..] == a;
    assert (u.text + b)[..|u.text|] == u.text && (u.text + b)[|u.text|..] == b;
    HashesAreInjective(h, len, count, hashed, t.children, u.children);
  }

  lemma {:induction false} HashesAreInjective(h: Hash, len: nat, count: Count, hashed: set<string>,
                                              ts: seq<Tree>, us: seq<Tree>)
    requires GoodHash(h, len, count) && |ts| == |us| && NoCollision(h, hashed)
    requires forall i :: 0 <= i < |ts| ==> HashedIn(h, ts[i], hashed) && HashedIn(h, us[i], hashed)
    requires forall i :: 0 <= i < |ts| ==> TreeParsed(ts[i], count) && TreeParsed(us[i], count)
    requires Concat(HashesOf(h, ts)) == Concat(HashesOf(h, us))
    ensures ts == us
    decreases ts, 1, |ts|
  {
    if ts != [] {
      var d, e := HashOf(h, ts[0]), HashOf(h, us[0]);
      var a, b := Concat(HashesOf(h, ts[1..])), Concat(HashesOf(h, us[1..]));
      assert HashesOf(h, ts)[1..] == HashesOf(h, ts[1..]) && HashesOf(h, us)[1..] == HashesOf(h, us[1..]);
      assert d + a == e + b && |d| == len == |e|;
      assert (d + a)[..len] == d && (e + b)[..len] == e;
      assert (d + a)[len..] == a && (e + b)[len..] == b;
      HashIsInjective(h, len, count, hashed, ts[0], us[0]);
      HashesAreInjective(h, len, count, hashed, ts[1..], us[1..]);
      assert ts == [ts[0]] + ts[1..] && us == [us[0]] + us[1..];
    }
  }

  /** Unless two of the hashed texts collide, two files have the same digest exactly when
      their include closures carry the same texts in the same places: a cached result is
      neither missed nor misattributed. */
  lemma {:induction false} DigestIdentifiesClosure(one: Files, other: Files, h: Hash, len: nat, count: Count, hashed: set<string>,
                                r1: Rank, r2: Rank, f: string, g: string)
    requires GoodHash(h, len, count)
    requires Acyclic(one, r1) && Parsed(one, count) && Acyclic(other, r2) && Parsed(other, count)
    requires TreeOf(one, r1, f).Some? && TreeOf(other, r2, g).Some? && NoCollision(h, hashed)
    requires HashedIn(h, TreeOf(one, r1, f).value, hashed) && HashedIn(h, TreeOf(other, r2, g).value, hashed)
    ensures Digest(one, h, r1, f) == Digest(other, h, r2, g) <==> TreeOf(one, r1, f) == TreeOf(other, r2, g)
  {
    DigestHashesTree(one, h, r1, f);
    DigestHashesTree(other, h, r2, g);
    TreeOfParsed(one, r1, f, count);
    TreeOfParsed(other, r2, g, count);
    var t, u := TreeOf(one, r1, f).value, TreeOf(other, r2, g).value;
    if HashOf(h, t) == HashOf(h, u) {
      HashIsInjective(h, len, count, hashed, t, u);
    }
  }
}
