/**
 * The shape of the in-place trie: which key sits at which slot.  A slot is a path; every key sits
 * on its own path, no two keys share a slot, and every slot above an occupied one is occupied.
 */
module TrieShape {
  import opened TriePaths

  type Path = seq<nat>

  ghost predicate Shape(g: Geometry, place: map<nat, Path>, keyAt: map<Path, nat>)
    requires Fits(g)
  {
    && (forall k | k in place :: OnPath(g, k, place[k]) && place[k] in keyAt && keyAt[place[k]] == k)
    && (forall p | p in keyAt :: keyAt[p] in place && place[keyAt[p]] == p)
    && (forall p {:trigger Parent(p)} | p in keyAt && |p| > 1 :: Parent(p) in keyAt)
  }

  function Parent(p: Path): Path
    requires |p| > 1
  {
    p[..|p| - 1]
  }

  /** Slot q lies below slot p, or is p. */
  ghost predicate Under(p: Path, q: Path) {
    1 <= |p| <= |q| && q[..|p|] == p
  }

  /** The slot lies on the way of the key. */
  ghost predicate OnPath(g: Geometry, key: nat, p: Path)
    requires Fits(g)
  {
    1 <= |p| <= g.depth + 2 && PathOf(g, key, |p| - 1) == p
  }

  /** A foreign key on the way means that there are digits left to separate the two. */
  lemma Separates(g: Geometry, place: map<nat, Path>, keyAt: map<Path, nat>, key: nat, n: nat)
    requires Fits(g) && Shape(g, place, keyAt) && n <= g.depth + 1
    requires PathOf(g, key, n) in keyAt && keyAt[PathOf(g, key, n)] != key
    ensures n <= g.depth
  {
    hide PathOf;
    var other := keyAt[PathOf(g, key, n)];
    assert place[other] == PathOf(g, key, n) && OnPath(g, other, place[other]);
    if n == g.depth + 1 {
      FullPath(g, key, other);
    }
  }

  lemma {:induction false} Ancestors(g: Geometry, place: map<nat, Path>, keyAt: map<Path, nat>, p: Path, m: nat)
    requires Fits(g) && Shape(g, place, keyAt) && p in keyAt && 1 <= m <= |p|
    ensures p[..m] in keyAt
    decreases |p|
  {
    if m < |p| {
      var parent := Parent(p);
      assert parent in keyAt;
      Ancestors(g, place, keyAt, parent, m);
      assert parent[..m] == p[..m];
    } else {
      assert p[..m] == p;
    }
  }

  /** The slots on the way to a stored key are all occupied. */
  lemma WayOccupied(g: Geometry, place: map<nat, Path>, keyAt: map<Path, nat>, key: nat, n: nat)
    requires Fits(g) && Shape(g, place, keyAt) && key in place && n < |place[key]|
    ensures n <= g.depth + 1 && PathOf(g, key, n) in keyAt
  {
    hide PathOf;
    var p := place[key];
    assert OnPath(g, key, p);
    PathPrefix(g, key, n, |p| - 1);
    Ancestors(g, place, keyAt, p, n + 1);
  }

  /** A new key takes the first free slot on its way. */
  lemma ShapeInsert(g: Geometry, place: map<nat, Path>, keyAt: map<Path, nat>, key: nat, n: nat)
    requires Fits(g) && Shape(g, place, keyAt) && n <= g.depth + 1 && key !in place
    requires PathOf(g, key, n) !in keyAt && (n > 0 ==> PathOf(g, key, n - 1) in keyAt)
    ensures Shape(g, place[key := PathOf(g, key, n)], keyAt[PathOf(g, key, n) := key])
  {
    var p := PathOf(g, key, n);
    var place', keyAt' := place[key := p], keyAt[p := key];
    forall q | q in keyAt' && |q| > 1 ensures Parent(q) in keyAt' {
      if q == p {
        assert Parent(p) == PathOf(g, key, n - 1);
      }
    }
  }

  /** A slot without children can be given up. */
  lemma ShapeDelete(g: Geometry, place: map<nat, Path>, keyAt: map<Path, nat>, p: Path)
    requires Fits(g) && Shape(g, place, keyAt) && p in keyAt
    requires forall q {:trigger Parent(q)} | q in keyAt && |q| > 1 :: Parent(q) != p
    ensures Shape(g, place - {keyAt[p]}, keyAt - {p})
  {
  }

  /** The key of a childless slot below p can replace the key at p. */
  lemma ShapePromote(g: Geometry, place: map<nat, Path>, keyAt: map<Path, nat>, p: Path, leaf: Path)
    requires Fits(g) && Shape(g, place, keyAt) && p in keyAt && leaf in keyAt
    requires 1 <= |p| < |leaf| && leaf[..|p|] == p
    requires forall q {:trigger Parent(q)} | q in keyAt && |q| > 1 :: Parent(q) != leaf
    ensures Shape(g, (place - {keyAt[p]})[keyAt[leaf] := p], (keyAt - {leaf})[p := keyAt[leaf]])
  {
    hide PathOf;
    var key := keyAt[leaf];
    assert OnPath(g, key, leaf);
    PathPrefix(g, key, |p| - 1, |leaf| - 1);
    assert OnPath(g, key, p);
    var place', keyAt' := (place - {keyAt[p]})[key := p], (keyAt - {leaf})[p := key];
    forall q | q in keyAt' ensures keyAt'[q] in place' && place'[keyAt'[q]] == q {
    }
    forall q | q in keyAt' && |q| > 1 ensures Parent(q) in keyAt' {
      assert q in keyAt;
    }
    forall k | k in place' ensures OnPath(g, k, place'[k]) && place'[k] in keyAt' && keyAt'[place'[k]] == k {
      assert k in place;
    }
  }
}
