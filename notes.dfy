/** The note record shared by both components, the `number | null` ids they
    keep, and the shape of the list the backend hands out. */
module Notes {

  /** One row of the remote `note` table as the client caches it. */
  datatype Note = Note(id: int, title: string, content: string)

  /** `number | null`: a nullable note id. */
  datatype Option<T> = None | Some(value: T)

  /** JavaScript truthiness of a `number | null` id: `null` and `0` are
      falsy. (NaN is not an id the backend hands out.) */
  predicate Truthy(id: Option<int>)
  {
    id.Some? && id.value != 0
  }

  /** The ids of a list of notes, in list order. */
  function Ids(notes: seq<Note>): (r: seq<int>)
    ensures |r| == |notes|
    ensures forall i :: 0 <= i < |notes| ==> r[i] == notes[i].id
  {
    if notes == [] then [] else [notes[0].id] + Ids(notes[1..])
  }

  /** The order the backend returns rows in: ids strictly descending (the
      query orders by id, descending, and ids are a primary key). */
  ghost predicate Descending(notes: seq<Note>)
  {
    forall i, j :: 0 <= i < j < |notes| ==> notes[i].id > notes[j].id
  }

  /** No two notes share an id. */
  ghost predicate DistinctIds(notes: seq<Note>)
  {
    forall i, j :: 0 <= i < |notes| && 0 <= j < |notes| && notes[i].id == notes[j].id ==> i == j
  }

  /** `r` is `s` with some elements dropped, the rest kept in their order. */
  ghost predicate IsSubsequence<T>(r: seq<T>, s: seq<T>)
    decreases |s|
  {
    if r == [] then true
    else if s == [] then false
    else (r[0] == s[0] && IsSubsequence(r[1..], s[1..])) || IsSubsequence(r, s[1..])
  }

  /** How many notes carry the id `id`. */
  function Occurrences(notes: seq<Note>, id: int): (n: nat)
    ensures n <= |notes|
    ensures n == 0 <==> forall i :: 0 <= i < |notes| ==> notes[i].id != id
  {
    if notes == [] then 0
    else (if notes[0].id == id then 1 else 0) + Occurrences(notes[1..], id)
  }

  lemma DescendingIsDistinct(notes: seq<Note>)
    requires Descending(notes)
    ensures DistinctIds(notes)
  {
  }

  /** Every element of a subsequence is an element of the whole. */
  lemma {:induction false} SubsequenceMembers<T>(r: seq<T>, s: seq<T>)
    requires IsSubsequence(r, s)
    ensures forall x :: x in r ==> x in s
    decreases |s|
  {
    if r != [] {
      assert s != [];
      if r[0] == s[0] && IsSubsequence(r[1..], s[1..]) {
        SubsequenceMembers(r[1..], s[1..]);
        forall x | x in r ensures x in s {
          if x != r[0] { assert x in r[1..]; }
        }
      } else {
        SubsequenceMembers(r, s[1..]);
      }
    }
  }

  /** Dropping notes from a list ordered by descending id keeps it ordered. */
  lemma {:induction false} SubsequenceKeepsDescending(r: seq<Note>, s: seq<Note>)
    requires IsSubsequence(r, s)
    requires Descending(s)
    ensures Descending(r)
    decreases |s|
  {
    if r != [] {
      assert s != [];
      assert Descending(s[1..]) by {
        forall i, j | 0 <= i < j < |s[1..]| ensures s[1..][i].id > s[1..][j].id {
          assert s[1..][i] == s[i + 1] && s[1..][j] == s[j + 1];
        }
      }
      if r[0] == s[0] && IsSubsequence(r[1..], s[1..]) {
        SubsequenceKeepsDescending(r[1..], s[1..]);
        SubsequenceMembers(r[1..], s[1..]);
        forall i, j | 0 <= i < j < |r| ensures r[i].id > r[j].id {
          assert r[j] == r[1..][j - 1];
          assert r[j] in s[1..];
          var k :| 0 <= k < |s[1..]| && s[1..][k] == r[j];
          assert s[k + 1] == r[j];
          if i > 0 { assert r[i] == r[1..][i - 1]; }
        }
      } else {
        SubsequenceKeepsDescending(r, s[1..]);
      }
    }
  }
}
