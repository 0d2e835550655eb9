/** ArrayExt: the emptiness check for a nullable array. */
module ArrayExt {
  import CollectionExt

  /** An array is empty when it is null or holds no element. */
  function IsEmptyDk<T>(arr: array?<T>): (r: bool)
    reads arr
    ensures r <==> arr == null || arr[..] == []
  {
    arr == null || arr.Length == 0
  }

  /** It answers as the array check in CollectionExt does, for every array. */
  lemma AgreesWithCollectionExt<T>(arr: array?<T>)
    ensures IsEmptyDk(arr) == CollectionExt.IsEmptyArrayDk(arr)
  {
  }
}
