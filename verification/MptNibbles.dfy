/** Byte keys as paths of nibbles, high nibble first. */
module MptNibbles {
  import opened Wrappers
  import opened MptTree

  ghost function Nibbles(key: Bytes): (ks: Key)
    ensures |ks| == 2 * |key|
  {
    if key == [] then [] else Nibbles(key[..|key|-1]) + [key[|key|-1] / 16, key[|key|-1] % 16]
  }

  method BytesToNibbles(key: Bytes) returns (nibbles: Key)
    ensures nibbles == Nibbles(key)
  {
    nibbles := [];
    for i := 0 to |key|
      invariant nibbles == Nibbles(key[..i])
    {
      assert key[..i+1][..i] == key[..i];
      nibbles := nibbles + [key[i] / 16, key[i] % 16];
    }
    assert key[..|key|] == key;
  }

  lemma {:induction false} NibblesAt(key: Bytes, i: nat)
    requires i < |key|
    ensures Nibbles(key)[2*i] == key[i] / 16 && Nibbles(key)[2*i+1] == key[i] % 16
  {
    if i < |key| - 1 {
      NibblesAt(key[..|key|-1], i);
    }
  }

  /** A byte key is a prefix of another exactly when its path is. */
  lemma NibblesPrefix(a: Bytes, b: Bytes)
    ensures a <= b <==> Nibbles(a) <= Nibbles(b)
    ensures a == b <==> Nibbles(a) == Nibbles(b)
  {
    if |a| <= |b| {
      forall i | 0 <= i < |a|
        ensures a[i] == b[i] <==> Nibbles(a)[2*i] == Nibbles(b)[2*i] && Nibbles(a)[2*i+1] == Nibbles(b)[2*i+1]
      {
        NibblesAt(a, i);
        NibblesAt(b, i);
      }
      if a <= b {
        forall j | 0 <= j < |Nibbles(a)| ensures Nibbles(a)[j] == Nibbles(b)[j] {
          assert j == 2 * (j / 2) || j == 2 * (j / 2) + 1;
        }
      }
    }
  }
}
