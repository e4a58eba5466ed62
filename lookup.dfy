/** Searching a list by a numeric key, as findIndex and find are used on records. */
module Lookup {
  /** The first position whose element has the given key, or -1 when none has it. */
  function FirstWithKey<T>(s: seq<T>, key: T -> int, wanted: int): (k: int)
    ensures -1 <= k < |s|
    ensures k >= 0 ==> key(s[k]) == wanted && forall j :: 0 <= j < k ==> key(s[j]) != wanted
    ensures k == -1 ==> forall j :: 0 <= j < |s| ==> key(s[j]) != wanted
  {
    if s == [] then -1
    else if key(s[0]) == wanted then 0
    else
      var k := FirstWithKey(s[1..], key, wanted);
      if k == -1 then -1 else k + 1
  }
}
