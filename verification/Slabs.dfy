// Slab classes: class t holds up to 1024 * 2^t bytes.
module Slabs {
  const MAX_TYPE: nat := 10

  function SlabSize(t: nat): (size: nat)
    ensures size >= 1024
  {
    if t == 0 then 1024 else 2 * SlabSize(t - 1)
  }

  // How many slabs of 1024 bytes a value of class t takes.
  function SlabCount(t: nat): (count: nat)
    ensures count >= 1 && SlabSize(t) == 1024 * count
  {
    if t == 0 then 1 else 2 * SlabCount(t - 1)
  }

  // The smallest class that holds the length.
  function SlabType(length: nat): (t: nat)
    ensures length <= SlabSize(t) && (t > 0 ==> SlabSize(t - 1) < length)
  {
    if length <= 1024 then 0 else 1 + SlabType((length + 1) / 2)
  }

  lemma {:induction false} Monotone(s: nat, t: nat)
    requires s <= t
    ensures SlabSize(s) <= SlabSize(t) && SlabCount(s) <= SlabCount(t)
  {
    if s < t {
      Monotone(s, t - 1);
    }
  }

  lemma MaxSize()
    ensures SlabSize(MAX_TYPE) == 1024 * 1024 && SlabCount(MAX_TYPE) == 1024
  {
    assert SlabSize(5) == 32 * 1024 && SlabCount(5) == 32;
  }

  // A length is too long for the largest class exactly when it exceeds 1 MB.
  lemma WithinMax(length: nat)
    ensures SlabType(length) <= MAX_TYPE <==> length <= 1024 * 1024
  {
    hide SlabType, SlabSize, SlabCount;
    MaxSize();
    var t := SlabType(length);
    if t <= MAX_TYPE {
      Monotone(t, MAX_TYPE);
    } else {
      Monotone(MAX_TYPE, t - 1);
    }
  }
}
