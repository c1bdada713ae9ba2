/**
  The data both commands share: a finished subprocess, and the author map
  (the JSON document `reuse_annotate_authors.json`) as a Python dict from
  file path to author list, kept as a list of entries in insertion order.
 */
module AuthorMaps {

  datatype Option<T> = None | Some(value: T)

  /** What `subprocess.run(..., capture_output=True, text=True)` hands back. */
  datatype Completed = Completed(returncode: int, stdout: string, stderr: string)

  datatype Entry = Entry(path: string, authors: seq<string>)

  /** A dict `{path: authors}`; iteration follows the order of the list. */
  type AuthorMap = seq<Entry>

  function Keys(m: AuthorMap): (ks: seq<string>)
    ensures |ks| == |m| && forall i :: 0 <= i < |m| ==> ks[i] == m[i].path
  {
    if m == [] then [] else [m[0].path] + Keys(m[1..])
  }

  /** The keys of a list with one more entry at the end. */
  lemma KeysSnoc(m: AuthorMap, e: Entry)
    ensures Keys(m + [e]) == Keys(m) + [e.path]
  {
    var l, r := Keys(m + [e]), Keys(m) + [e.path];
    assert |l| == |r|;
    forall i | 0 <= i < |l| ensures l[i] == r[i] {
      if i < |m| {
        assert (m + [e])[i] == m[i];
      }
    }
  }

  /** No path is a key twice, as in every dict. */
  predicate UniqueKeys(m: AuthorMap)
  {
    forall i, j :: 0 <= i < j < |m| ==> m[i].path != m[j].path
  }


  /** `m[path]` if the key is present. */
  function Lookup(m: AuthorMap, path: string): Option<seq<string>>
  {
    if m == [] then None
    else if m[0].path == path then Some(m[0].authors)
    else Lookup(m[1..], path)
  }

  /** A key is found exactly when it is present, with a value stored under it. */
  lemma {:induction false} LookupPresent(m: AuthorMap, path: string)
    ensures Lookup(m, path).Some? <==> path in Keys(m)
    ensures Lookup(m, path).Some? ==> Entry(path, Lookup(m, path).value) in m
  {
    if m != [] {
      LookupPresent(m[1..], path);
    }
  }

  /** In a dict every key finds the value stored with it. */
  lemma {:induction false} LookupEntry(m: AuthorMap, i: nat)
    requires UniqueKeys(m) && i < |m|
    ensures Lookup(m, m[i].path) == Some(m[i].authors)
    decreases i
  {
    if i > 0 {
      LookupEntry(m[1..], i - 1);
    }
  }

  /** `m.get(path, default)`. */
  function GetOr(m: AuthorMap, path: string, default: seq<string>): seq<string>
  {
    match Lookup(m, path)
    case Some(v) => v
    case None => default
  }

  /**
    `m[path] = authors`: a present key keeps its place and gets the new
    value; a new key goes to the end.
   */
  function Assign(m: AuthorMap, path: string, authors: seq<string>): AuthorMap
  {
    if m == [] then [Entry(path, authors)]
    else if m[0].path == path then [Entry(path, authors)] + m[1..]
    else [m[0]] + Assign(m[1..], path, authors)
  }

  lemma {:induction false} AssignKeys(m: AuthorMap, path: string, authors: seq<string>)
    ensures Keys(Assign(m, path, authors)) == if path in Keys(m) then Keys(m) else Keys(m) + [path]
  {
    if m != [] {
      if m[0].path != path {
        AssignKeys(m[1..], path, authors);
        assert Assign(m, path, authors)[1..] == Assign(m[1..], path, authors);
      } else {
        assert Assign(m, path, authors)[1..] == m[1..];
      }
    }
  }

  lemma {:induction false} AssignLookup(m: AuthorMap, path: string, authors: seq<string>, k: string)
    ensures Lookup(Assign(m, path, authors), k) == if k == path then Some(authors) else Lookup(m, k)
  {
    if m != [] && m[0].path != path {
      AssignLookup(m[1..], path, authors, k);
      assert Assign(m, path, authors)[1..] == Assign(m[1..], path, authors);
    }
  }

  lemma AssignUnique(m: AuthorMap, path: string, authors: seq<string>)
    requires UniqueKeys(m)
    ensures UniqueKeys(Assign(m, path, authors))
  {
    var r := Assign(m, path, authors);
    AssignKeys(m, path, authors);
    var ks := Keys(r);
    assert forall i :: 0 <= i < |r| ==> r[i].path == ks[i];
  }
}
