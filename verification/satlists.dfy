/** The retriever's `lists` dictionary: list name to `{"numbers": [...]}`.
    A Python dict keeps insertion order, and the download loop visits the
    names in that order, so it is modelled as a sequence of entries with
    distinct names. */
module SatLists {
  import opened Wrappers

  datatype Entry = Entry(name: string, numbers: seq<int>)

  type Lists = seq<Entry>

  /** Keys of a dictionary are distinct. */
  predicate Distinct(l: Lists)
  {
    forall i, j :: 0 <= i < j < |l| ==> l[i].name != l[j].name
  }

  /** An empty dictionary, as the retriever starts with. */
  const Empty: Lists := []

  /** The position of `name` in iteration order, if it is a key. */
  function IndexOf(l: Lists, name: string): (r: Option<nat>)
    ensures r.Some? ==> r.value < |l| && l[r.value].name == name
    ensures r.None? ==> forall i :: 0 <= i < |l| ==> l[i].name != name
  {
    if |l| == 0 then None
    else if l[|l| - 1].name == name then Some(|l| - 1)
    else IndexOf(l[..|l| - 1], name)
  }

  /** `lists[name]["numbers"]`, or `None` when the key is missing. */
  function Lookup(l: Lists, name: string): Option<seq<int>>
  {
    match IndexOf(l, name)
    case None => None
    case Some(i) => Some(l[i].numbers)
  }

  /** In a dictionary, looking up the name at position `i` yields the numbers
      stored at position `i`. */
  lemma LookupAt(l: Lists, i: int)
    requires Distinct(l) && 0 <= i < |l|
    ensures Lookup(l, l[i].name) == Some(l[i].numbers)
  {
  }

  /** `lists[name] = {"numbers": numbers}`: an existing key keeps its place
      and has its value replaced; a new key goes to the end. */
  function Put(l: Lists, name: string, numbers: seq<int>): (r: Lists)
    requires Distinct(l)
    ensures Distinct(r)
    ensures Lookup(r, name) == Some(numbers)
    ensures forall other :: other != name ==> Lookup(r, other) == Lookup(l, other)
    ensures |r| == if IndexOf(l, name).Some? then |l| else |l| + 1
    ensures forall i :: 0 <= i < |l| ==> r[i].name == l[i].name
    ensures |r| > |l| ==> r[|l|].name == name
  {
    match IndexOf(l, name)
    case Some(i) =>
      var r := l[i := Entry(name, numbers)];
      LookupAt(r, i);
      assert forall other :: other != name ==> IndexOf(r, other) == IndexOf(l, other) by {
        forall other | other != name
          ensures IndexOf(r, other) == IndexOf(l, other)
        {
          SameNamesSameIndex(l, r, other);
        }
      }
      r
    case None =>
      var r := l + [Entry(name, numbers)];
      LookupAt(r, |l|);
      assert forall other :: other != name ==> IndexOf(r, other) == IndexOf(l, other) by {
        forall other | other != name
          ensures IndexOf(r, other) == IndexOf(l, other)
        {
          assert r[..|r| - 1] == l;
        }
      }
      r
  }

  /** Positions are found by name alone. */
  lemma {:induction false} SameNamesSameIndex(l: Lists, m: Lists, name: string)
    requires |l| == |m|
    requires forall i :: 0 <= i < |l| ==> (l[i].name == name <==> m[i].name == name)
    ensures IndexOf(l, name) == IndexOf(m, name)
    decreases |l|
  {
    if |l| > 0 {
      SameNamesSameIndex(l[..|l| - 1], m[..|m| - 1], name);
    }
  }
}
