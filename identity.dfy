/**
 * Identity matching in main.py: collapsing duplicate known names when the
 * encodings are loaded, and choosing the best-scoring known name for a face.
 * Cosine similarity itself is computed elsewhere; scores arrive as reals,
 * one per known name, in the order of the known list.
 */
module Identity {

  /** A face is recognised only when its best score is strictly above this. */
  const MatchThreshold: real := 0.4

  datatype MatchResult = Unknown | Recognized(index: nat, name: string)

  /** The index of the first occurrence of `x` in `s`. */
  function IndexOf<T(==)>(s: seq<T>, x: T): (i: nat)
    requires x in s
    ensures i < |s| && s[i] == x
    ensures forall j :: 0 <= j < i ==> s[j] != x
  {
    if s[0] == x then 0 else 1 + IndexOf(s[1..], x)
  }

  /**
   * The dedup loop over `zip(known_names, known_encodings)`: keeps the first
   * occurrence of every name together with the encoding paired with it.
   * `zip` stops at the shorter list, so only that many pairs are looked at.
   */
  method Dedup<E>(names: seq<string>, encodings: seq<E>)
    returns (uniqueNames: seq<string>, uniqueEncodings: seq<E>)
    ensures |uniqueNames| == |uniqueEncodings|
    ensures forall i, j :: 0 <= i < j < |uniqueNames| ==> uniqueNames[i] != uniqueNames[j]
    ensures forall n :: n in uniqueNames <==>
              n in names[..if |names| <= |encodings| then |names| else |encodings|]
    ensures forall i :: 0 <= i < |uniqueNames| ==>
              && uniqueNames[i] in names
              && IndexOf(names, uniqueNames[i]) < |encodings|
              && uniqueEncodings[i] == encodings[IndexOf(names, uniqueNames[i])]
    ensures forall i, j :: 0 <= i < j < |uniqueNames| ==>
              IndexOf(names, uniqueNames[i]) < IndexOf(names, uniqueNames[j])
  {
    var pairs := if |names| <= |encodings| then |names| else |encodings|;
    uniqueNames, uniqueEncodings := [], [];
    var seenNames: set<string> := {};
    for k := 0 to pairs
      invariant |uniqueNames| == |uniqueEncodings|
      invariant forall n :: n in seenNames <==> n in uniqueNames
      invariant forall n :: n in uniqueNames <==> n in names[..k]
      invariant forall i :: 0 <= i < |uniqueNames| ==>
                  && uniqueNames[i] in names
                  && IndexOf(names, uniqueNames[i]) < k
                  && uniqueEncodings[i] == encodings[IndexOf(names, uniqueNames[i])]
      invariant forall i, j :: 0 <= i < j < |uniqueNames| ==>
                  IndexOf(names, uniqueNames[i]) < IndexOf(names, uniqueNames[j])
    {
      var name, encoding := names[k], encodings[k];
      if name !in seenNames {
        assert forall j :: 0 <= j < k ==> names[j] != name by {
          forall j | 0 <= j < k ensures names[j] != name {
            assert names[..k][j] == names[j];
          }
        }
        assert IndexOf(names, name) == k;
        uniqueNames := uniqueNames + [name];
        uniqueEncodings := uniqueEncodings + [encoding];
        seenNames := seenNames + {name};
      }
      assert names[..k + 1] == names[..k] + [name];
    }
  }

  /**
   * `np.argmax`: the first index holding the largest score.
   */
  function ArgMax(scores: seq<real>): (k: nat)
    requires |scores| > 0
    ensures k < |scores|
    ensures forall j :: 0 <= j < |scores| ==> scores[j] <= scores[k]
    ensures forall j :: 0 <= j < k ==> scores[j] < scores[k]
  {
    if |scores| == 1 then 0
    else
      var k := ArgMax(scores[..|scores| - 1]);
      if scores[|scores| - 1] > scores[k] then |scores| - 1 else k
  }

  /**
   * The match made for one detected face, given its similarity to every
   * known name. `np.argmax` raises on an empty list, so at least one known
   * name is required.
   */
  function Match(known: seq<string>, scores: seq<real>): (m: MatchResult)
    requires 0 < |scores| == |known|
    ensures m.Recognized? ==>
              && m.index < |known|
              && m.name == known[m.index]
              && scores[m.index] > MatchThreshold
              && (forall j :: 0 <= j < |scores| ==> scores[j] <= scores[m.index])
              && (forall j :: 0 <= j < m.index ==> scores[j] < scores[m.index])
    ensures m.Unknown? <==> forall j :: 0 <= j < |scores| ==> scores[j] <= MatchThreshold
  {
    var best := ArgMax(scores);
    if scores[best] > MatchThreshold then Recognized(best, known[best]) else Unknown
  }
}
