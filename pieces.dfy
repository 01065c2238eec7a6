/** The piece catalog: seven square shapes, keyed by letter, each cell either 0 or the piece's id. */
module Pieces {
  import opened Grids

  /** The catalog's keys, in declaration order (the order `Object.keys` yields them). */
  const Keys: seq<string> := ["T", "O", "L", "J", "I", "S", "Z"]

  /** The catalog's initial shapes; entry k is drawn with id k + 1. */
  const Catalog: seq<Grid> := [
    [[0, 1, 0], [1, 1, 1], [0, 0, 0]],
    [[2, 2], [2, 2]],
    [[0, 0, 3], [3, 3, 3], [0, 0, 0]],
    [[4, 0, 0], [4, 4, 4], [0, 0, 0]],
    [[0, 5, 0, 0], [0, 5, 0, 0], [0, 5, 0, 0], [0, 5, 0, 0]],
    [[0, 6, 6], [6, 6, 0], [0, 0, 0]],
    [[7, 7, 0], [0, 7, 7], [0, 0, 0]]
  ]

  /** The number of catalog entries. */
  const Kinds := 7

  /** Side length of catalog entry `k`: 'O' is 2 wide, 'I' 4, the others 3. */
  function Size(k: nat): nat
    requires k < Kinds
  {
    if k == 1 then 2 else if k == 4 then 4 else 3
  }

  /** Position of `key` in `keys`, or |keys| when it is absent. */
  function IndexOf(keys: seq<string>, key: string): (k: nat)
    ensures k <= |keys|
    ensures k < |keys| ==> keys[k] == key
    ensures k == |keys| <==> key !in keys
  {
    if keys == [] then 0
    else if keys[0] == key then 0
    else 1 + IndexOf(keys[1..], key)
  }

  /** createPiece: the catalog entry for `key`, falling back to 'T' for a key that is not one of the seven.
      Keys are taken to be plain strings, not property names every object inherits. */
  function PieceIndex(key: string): (k: nat)
    ensures k < |Keys|
    ensures key in Keys ==> Keys[k] == key
    ensures key !in Keys ==> k == 0
  {
    var i := IndexOf(Keys, key);
    if i < |Keys| then i else 0
  }

  /** The index Math.floor(Math.random() * keys.length) with which playerReset picks a key. */
  type Choice = k: nat | k < Kinds

  /** createPiece applied to the key at index `k` yields entry `k`: the fallback is never needed there. */
  lemma {:induction false} PieceIndexOfKey(k: nat)
    requires k < |Keys|
    ensures PieceIndex(Keys[k]) == k
  {
    assert Keys[k] in Keys;
    assert forall i, j :: 0 <= i < j < |Keys| ==> Keys[i] != Keys[j];
    var i := IndexOf(Keys, Keys[k]);
    assert Keys[i] == Keys[k];
  }

  /** A well-formed state of catalog entry `k`: square of the entry's size, cells 0 or k + 1, some cell filled. */
  predicate ValidShape(g: Grid, k: nat)
    requires k < Kinds
  {
    IsSquare(g) && |g| == Size(k) && HasBlock(g) &&
    forall i, j :: 0 <= i < |g| && 0 <= j < |g[i]| ==> g[i][j] == 0 || g[i][j] == k + 1
  }

  /** Every initial catalog shape is well formed, and shapes are 2, 3 or 4 cells wide. */
  lemma CatalogValid()
    ensures |Catalog| == |Keys| == Kinds
    ensures forall k :: 0 <= k < Kinds ==> ValidShape(Catalog[k], k) && |Catalog[k]| == Size(k) && 2 <= Size(k) <= 4
  {
    assert Catalog[0][0][1] != 0;
    assert Catalog[1][0][0] != 0;
    assert Catalog[2][0][2] != 0;
    assert Catalog[3][0][0] != 0;
    assert Catalog[4][0][1] != 0;
    assert Catalog[5][0][1] != 0;
    assert Catalog[6][0][0] != 0;
  }
}
