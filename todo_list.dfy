/** The list computations of the to-do screen: the `todos.map(...)` that
    rewrites one item's text or id, the `todos.filter(...)` that drops an
    item, and the facts about them that the handlers rely on. */
module TodoList {

  /** A to-do record `{id, text}`. The id is an opaque string: the store's
      document id, or a placeholder made from the clock while a create is in
      flight. */
  datatype Todo = Todo(id: string, text: string)

  /** The ids of a list, in order. */
  function Ids(s: seq<Todo>): seq<string> {
    seq(|s|, i requires 0 <= i < |s| => s[i].id)
  }

  /** No id occurs twice. */
  predicate UniqueIds(s: seq<Todo>) {
    forall i, j :: 0 <= i < j < |s| ==> s[i].id != s[j].id
  }

  /** `todos.map(todo => todo.id === id ? { ...todo, text } : todo)`:
      every item whose id is `id` gets the new text; positions, ids and
      all other items stay as they were. */
  function ReplaceText(s: seq<Todo>, id: string, text: string): (r: seq<Todo>)
    ensures |r| == |s|
    ensures forall i :: 0 <= i < |s| ==> r[i].id == s[i].id
    ensures forall i :: 0 <= i < |s| && s[i].id == id ==> r[i].text == text
    ensures forall i :: 0 <= i < |s| && s[i].id != id ==> r[i] == s[i]
  {
    if s == [] then []
    else
      var head := if s[0].id == id then s[0].(text := text) else s[0];
      var rest := ReplaceText(s[1..], id, text);
      assert forall i :: 0 < i < |s| ==> ([head] + rest)[i] == rest[i - 1] && s[i] == s[1..][i - 1];
      [head] + rest
  }

  /** `todos.map(todo => todo.id === from ? { ...todo, id: to } : todo)`:
      every item whose id is `from` is renamed to `to`; positions and texts
      stay as they were, and so does every other item. */
  function RenameId(s: seq<Todo>, from: string, to: string): (r: seq<Todo>)
    ensures |r| == |s|
    ensures forall i :: 0 <= i < |s| ==> r[i].text == s[i].text
    ensures forall i :: 0 <= i < |s| && s[i].id == from ==> r[i].id == to
    ensures forall i :: 0 <= i < |s| && s[i].id != from ==> r[i] == s[i]
  {
    if s == [] then []
    else
      var head := if s[0].id == from then s[0].(id := to) else s[0];
      var rest := RenameId(s[1..], from, to);
      assert forall i :: 0 < i < |s| ==> ([head] + rest)[i] == rest[i - 1] && s[i] == s[1..][i - 1];
      [head] + rest
  }

  /** `todos.filter(todo => todo.id !== id)`: exactly the items with
      another id survive. */
  function RemoveId(s: seq<Todo>, id: string): (r: seq<Todo>)
    ensures |r| <= |s|
    ensures forall t :: t in r <==> t in s && t.id != id
  {
    if s == [] then []
    else if s[0].id == id then RemoveId(s[1..], id)
    else [s[0]] + RemoveId(s[1..], id)
  }

  /** `a` is `b` with some items left out, the rest in their order. */
  ghost predicate IsSubsequence(a: seq<Todo>, b: seq<Todo>)
    decreases |b|
  {
    if a == [] then true
    else if b == [] then false
    else if a[0] == b[0] then IsSubsequence(a[1..], b[1..])
    else IsSubsequence(a, b[1..])
  }

  // ---------------------------------------------------------------------
  // Replace by id

  /** Rewriting a text never touches the ids, so uniqueness of ids is kept. */
  lemma ReplaceTextKeepsIds(s: seq<Todo>, id: string, text: string)
    ensures Ids(ReplaceText(s, id, text)) == Ids(s)
    ensures UniqueIds(s) ==> UniqueIds(ReplaceText(s, id, text))
  {
    var r := ReplaceText(s, id, text);
    assert forall i :: 0 <= i < |s| ==> Ids(r)[i] == r[i].id == s[i].id == Ids(s)[i];
  }

  /** When no item has the id, the rewrite is the identity. */
  lemma ReplaceTextAbsent(s: seq<Todo>, id: string, text: string)
    requires id !in Ids(s)
    ensures ReplaceText(s, id, text) == s
  {
    assert forall i :: 0 <= i < |s| ==> Ids(s)[i] == s[i].id;
  }

  // ---------------------------------------------------------------------
  // Rename by id

  /** When no item has the id `from`, the rename is the identity. */
  lemma RenameIdAbsent(s: seq<Todo>, from: string, to: string)
    requires from !in Ids(s)
    ensures RenameId(s, from, to) == s
  {
    assert forall i :: 0 <= i < |s| ==> Ids(s)[i] == s[i].id;
  }

  /** Renaming an item to an id no other item has keeps the ids unique. */
  lemma RenameIdKeepsUniqueIds(s: seq<Todo>, from: string, to: string)
    requires UniqueIds(s)
    requires to == from || to !in Ids(s)
    ensures UniqueIds(RenameId(s, from, to))
  {
    assert forall i :: 0 <= i < |s| ==> Ids(s)[i] == s[i].id;
  }

  /** The rename applied to the list with a placeholder item at the end
      renames that item in place: it keeps its position and its text, and
      the items before it are untouched. */
  lemma {:induction false} RenameAppended(s: seq<Todo>, from: string, to: string, text: string)
    requires from !in Ids(s)
    ensures RenameId(s + [Todo(from, text)], from, to) == s + [Todo(to, text)]
  {
    assert forall i :: 0 <= i < |s| ==> Ids(s)[i] == s[i].id;
    var r := RenameId(s + [Todo(from, text)], from, to);
    assert r[|s|] == Todo(to, text);
    assert forall i :: 0 <= i < |s| ==> r[i] == (s + [Todo(from, text)])[i] == s[i];
  }

  // ---------------------------------------------------------------------
  // Filter by id

  /** Filtering distributes over concatenation: every survivor of `a` stays
      before every survivor of `b`, which is what keeping the order of the
      survivors means. */
  lemma {:induction false} RemoveIdAppend(a: seq<Todo>, b: seq<Todo>, id: string)
    ensures RemoveId(a + b, id) == RemoveId(a, id) + RemoveId(b, id)
    decreases |a|
  {
    if a == [] {
      assert a + b == b;
    } else {
      assert (a + b)[1..] == a[1..] + b;
      RemoveIdAppend(a[1..], b, id);
    }
  }

  /** The survivors are the original list with items left out, in the
      original order. */
  lemma {:induction false} RemoveIdIsSubsequence(s: seq<Todo>, id: string)
    ensures IsSubsequence(RemoveId(s, id), s)
    decreases |s|
  {
    if s != [] {
      RemoveIdIsSubsequence(s[1..], id);
      if s[0].id == id {
        SubsequenceOfTail(RemoveId(s[1..], id), s);
      }
    }
  }

  /** A subsequence of the tail is a subsequence of the whole list. */
  lemma {:induction false} SubsequenceOfTail(a: seq<Todo>, b: seq<Todo>)
    requires b != [] && IsSubsequence(a, b[1..])
    ensures IsSubsequence(a, b)
    decreases |b|, 0
  {
    if a != [] && a[0] == b[0] {
      // a[0] also heads b[1..]'s matching, so drop it there and recurse
      SubsequenceDropHead(a, b[1..]);
    }
  }

  /** Dropping the first item of a subsequence keeps it a subsequence. */
  lemma {:induction false} SubsequenceDropHead(a: seq<Todo>, b: seq<Todo>)
    requires a != [] && IsSubsequence(a, b)
    ensures IsSubsequence(a[1..], b)
    decreases |b|, 1
  {
    if a[0] != b[0] {
      SubsequenceDropHead(a, b[1..]);
      SubsequenceOfTail(a[1..], b);
    } else if a[1..] != [] {
      SubsequenceOfTail(a[1..], b);
    }
  }

  /** When no item has the id, the filter keeps the whole list. */
  lemma {:induction false} RemoveIdAbsent(s: seq<Todo>, id: string)
    requires id !in Ids(s)
    ensures RemoveId(s, id) == s
    decreases |s|
  {
    if s != [] {
      assert Ids(s)[0] == s[0].id;
      assert Ids(s[1..]) == Ids(s)[1..];
      RemoveIdAbsent(s[1..], id);
      assert s == [s[0]] + s[1..];
    }
  }

  /** Filtering never brings two items with one id together, so unique
      ids stay unique. */
  lemma {:induction false} RemoveIdKeepsUniqueIds(s: seq<Todo>, id: string)
    requires UniqueIds(s)
    ensures UniqueIds(RemoveId(s, id))
    decreases |s|
  {
    if s != [] {
      RemoveIdKeepsUniqueIds(s[1..], id);
      if s[0].id != id {
        var rest := RemoveId(s[1..], id);
        forall j | 0 <= j < |rest| ensures rest[j].id != s[0].id {
          assert rest[j] in s[1..];
        }
        assert RemoveId(s, id) == [s[0]] + rest;
      }
    }
  }

  /** Filtering twice by the same id is filtering once. */
  lemma {:induction false} RemoveIdIdempotent(s: seq<Todo>, id: string)
    ensures RemoveId(RemoveId(s, id), id) == RemoveId(s, id)
  {
    var r := RemoveId(s, id);
    assert forall i :: 0 <= i < |r| ==> Ids(r)[i] == r[i].id && r[i] in r;
    RemoveIdAbsent(r, id);
  }

  // ---------------------------------------------------------------------
  // Append

  /** Appending an item whose id is new keeps the ids unique. */
  lemma AppendFreshKeepsUniqueIds(s: seq<Todo>, t: Todo)
    requires UniqueIds(s) && t.id !in Ids(s)
    ensures UniqueIds(s + [t])
  {
    assert forall i :: 0 <= i < |s| ==> Ids(s)[i] == s[i].id;
  }
}
