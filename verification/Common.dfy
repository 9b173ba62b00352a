// Notions that several of the models share.
module Common {
  type Byte = b: int | 0 <= b < 256

  datatype Option<+T> = None | Some(value: T)

  ghost predicate Distinct<T>(s: seq<T>)
  {
    forall i, j :: 0 <= i < j < |s| ==> s[i] != s[j]
  }

  lemma EmptyIff(s: set<int>)
    ensures s == {} <==> forall j :: j !in s
  {
    if forall j :: j !in s {
      assert s == {};
    }
  }
}
