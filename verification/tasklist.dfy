/**
 The list computations of the to-do screen, as pure functions on the task
 list: removing by id (`filter`), replacing the text of an id (`map`) and the
 case-insensitive search (`filter` with `toLowerCase` and `includes`).
 */
module TaskList {
  import opened JsString
  import opened Filtering

  /** One to-do entry. The id is a string chosen by the caller when the task is
      added; nothing makes ids unique. */
  datatype Task = Task(id: string, text: string)

  /** Some task in `tasks` carries `id`. */
  predicate HasId(tasks: seq<Task>, id: string) {
    exists i :: 0 <= i < |tasks| && tasks[i].id == id
  }

  /** No two tasks share an id. */
  ghost predicate UniqueIds(tasks: seq<Task>) {
    forall i, j :: 0 <= i < j < |tasks| ==> tasks[i].id != tasks[j].id
  }

  /** The test of the delete filter: the task does not carry `id`. */
  function OtherThan(id: string): Task -> bool {
    (t: Task) => t.id != id
  }

  /** `tasks.filter(task => task.id !== id)`. */
  function RemoveId(tasks: seq<Task>, id: string): (r: seq<Task>)
    ensures forall t :: t in r <==> t in tasks && t.id != id
  {
    Filter(tasks, OtherThan(id))
  }

  /** `tasks.map(task => task.id === id ? { ...task, text } : task)`: same
      length, same ids in the same places; the tasks carrying `id` get the new
      text and every other task is left as it was. */
  function ReplaceText(tasks: seq<Task>, id: string, text: string): (r: seq<Task>)
    ensures |r| == |tasks|
    ensures forall i :: 0 <= i < |tasks| ==> r[i].id == tasks[i].id
    ensures forall i :: 0 <= i < |tasks| && tasks[i].id == id ==> r[i].text == text
    ensures forall i :: 0 <= i < |tasks| && tasks[i].id != id ==> r[i] == tasks[i]
  {
    if tasks == [] then []
    else [if tasks[0].id == id then tasks[0].(text := text) else tasks[0]]
         + ReplaceText(tasks[1..], id, text)
  }

  /** The test of the search filter: the lower-cased text includes the
      lower-cased search term. */
  function Matching(term: string): Task -> bool {
    (t: Task) => Includes(ToLower(t.text), ToLower(term))
  }

  /** `tasks.filter(task => task.text.toLowerCase().includes(term.toLowerCase()))`. */
  function Search(tasks: seq<Task>, term: string): (r: seq<Task>)
    ensures forall t :: t in r <==> t in tasks && Includes(ToLower(t.text), ToLower(term))
  {
    Filter(tasks, Matching(term))
  }

  // ---------------------------------------------------------------- delete

  /** Delete keeps, in order, exactly the tasks that do not carry `id`. */
  lemma DeleteSelectsOthers(tasks: seq<Task>, id: string)
    ensures exists idx :: SubsequenceAt(tasks, RemoveId(tasks, id), idx)
                          && forall i :: 0 <= i < |tasks| ==> (i in idx <==> tasks[i].id != id)
  {
    FilterSelectsExactly(tasks, OtherThan(id));
    var idx :| SubsequenceAt(tasks, RemoveId(tasks, id), idx)
               && forall i :: 0 <= i < |tasks| ==> (i in idx <==> OtherThan(id)(tasks[i]));
    assert forall i :: 0 <= i < |tasks| ==> (i in idx <==> tasks[i].id != id);
  }

  /** Delete never lengthens the list, and shortens it when `id` is present. */
  lemma DeleteLength(tasks: seq<Task>, id: string)
    ensures |RemoveId(tasks, id)| <= |tasks|
    ensures HasId(tasks, id) ==> |RemoveId(tasks, id)| < |tasks|
  {
    if HasId(tasks, id) {
      var i :| 0 <= i < |tasks| && tasks[i].id == id;
      assert tasks[i] in tasks && !OtherThan(id)(tasks[i]);
      FilterShrinks(tasks, OtherThan(id));
    }
  }

  /** Deleting an id that no task carries changes nothing. */
  lemma DeleteAbsentIsNoop(tasks: seq<Task>, id: string)
    requires !HasId(tasks, id)
    ensures RemoveId(tasks, id) == tasks
  {
    forall t | t in tasks
      ensures OtherThan(id)(t)
    {
      var i :| 0 <= i < |tasks| && tasks[i] == t;
    }
    FilterAllPass(tasks, OtherThan(id));
  }

  /** Deleting the same id twice is deleting it once. */
  lemma DeleteIdempotent(tasks: seq<Task>, id: string)
    ensures RemoveId(RemoveId(tasks, id), id) == RemoveId(tasks, id)
  {
    FilterIdempotent(tasks, OtherThan(id));
  }

  /** With unique ids, deleting a present id removes exactly one task. */
  lemma {:induction false} DeleteUniqueRemovesOne(tasks: seq<Task>, id: string)
    requires UniqueIds(tasks) && HasId(tasks, id)
    ensures |RemoveId(tasks, id)| == |tasks| - 1
  {
    var rest := tasks[1..];
    assert UniqueIds(rest);
    if tasks[0].id == id {
      assert !HasId(rest, id) by {
        forall i | 0 <= i < |rest|
          ensures rest[i].id != id
        {
          assert rest[i] == tasks[i + 1];
        }
      }
      DeleteAbsentIsNoop(rest, id);
    } else {
      var i :| 0 <= i < |tasks| && tasks[i].id == id;
      assert rest[i - 1].id == id;
      DeleteUniqueRemovesOne(rest, id);
    }
  }

  /** Delete keeps ids unique. */
  lemma DeleteKeepsUnique(tasks: seq<Task>, id: string)
    requires UniqueIds(tasks)
    ensures UniqueIds(RemoveId(tasks, id))
  {
    DeleteSelectsOthers(tasks, id);
    var r := RemoveId(tasks, id);
    var idx :| SubsequenceAt(tasks, r, idx);
    forall k, l | 0 <= k < l < |r|
      ensures r[k].id != r[l].id
    {
      assert r[k] == tasks[idx[k]] && r[l] == tasks[idx[l]] && idx[k] < idx[l];
    }
  }

  // ---------------------------------------------------------------- update

  /** Replacing the text of an id that no task carries changes nothing. */
  lemma UpdateAbsentIsNoop(tasks: seq<Task>, id: string, text: string)
    requires !HasId(tasks, id)
    ensures ReplaceText(tasks, id, text) == tasks
  {
    var r := ReplaceText(tasks, id, text);
    forall i | 0 <= i < |tasks|
      ensures r[i] == tasks[i]
    {
      assert tasks[i].id != id;
    }
  }

  /** Replacing the same text twice is replacing it once. */
  lemma UpdateIdempotent(tasks: seq<Task>, id: string, text: string)
    ensures ReplaceText(ReplaceText(tasks, id, text), id, text) == ReplaceText(tasks, id, text)
  {
    var once := ReplaceText(tasks, id, text);
    var twice := ReplaceText(once, id, text);
    forall i | 0 <= i < |tasks|
      ensures twice[i] == once[i]
    {
      if tasks[i].id == id {
        assert twice[i].id == once[i].id && twice[i].text == once[i].text;
      }
    }
  }

  /** Update keeps ids unique: it never touches an id. */
  lemma UpdateKeepsUnique(tasks: seq<Task>, id: string, text: string)
    requires UniqueIds(tasks)
    ensures UniqueIds(ReplaceText(tasks, id, text))
  {
  }

  /** Deleting an id after editing it is the same as deleting it outright. */
  lemma {:induction false} DeleteAfterUpdate(tasks: seq<Task>, id: string, text: string)
    ensures RemoveId(ReplaceText(tasks, id, text), id) == RemoveId(tasks, id)
  {
    if tasks != [] {
      DeleteAfterUpdate(tasks[1..], id, text);
      assert ReplaceText(tasks, id, text)[1..] == ReplaceText(tasks[1..], id, text);
    }
  }

  /** Editing one id and deleting another can be done in either order. */
  lemma {:induction false} UpdateCommutesWithDelete(tasks: seq<Task>, id: string, other: string, text: string)
    requires id != other
    ensures RemoveId(ReplaceText(tasks, id, text), other) == ReplaceText(RemoveId(tasks, other), id, text)
  {
    if tasks != [] {
      var h, rest := tasks[0], tasks[1..];
      var h' := if h.id == id then h.(text := text) else h;
      var edited := ReplaceText(rest, id, text);
      UpdateCommutesWithDelete(rest, id, other, text);
      assert ReplaceText(tasks, id, text) == [h'] + edited;
      assert ([h'] + edited)[1..] == edited;
      assert RemoveId([h'] + edited, other)
          == (if h.id != other then [h'] else []) + RemoveId(edited, other);
      var kept := RemoveId(rest, other);
      assert RemoveId(tasks, other) == (if h.id != other then [h] else []) + kept;
      if h.id != other {
        assert ([h] + kept)[1..] == kept;
        assert ReplaceText([h] + kept, id, text) == [h'] + ReplaceText(kept, id, text);
      }
    }
  }

  // ---------------------------------------------------------------- search

  /** The lower-cased `term` occurs in the lower-cased text of `t`. */
  ghost predicate MentionsTerm(t: Task, term: string) {
    exists k :: OccursAt(ToLower(t.text), ToLower(term), k)
  }

  /** The search keeps, in order, exactly the tasks whose lower-cased text
      contains the lower-cased term. */
  lemma SearchSelectsMatches(tasks: seq<Task>, term: string)
    ensures exists idx :: SubsequenceAt(tasks, Search(tasks, term), idx)
                          && forall i :: 0 <= i < |tasks| ==> (i in idx <==> MentionsTerm(tasks[i], term))
  {
    FilterSelectsExactly(tasks, Matching(term));
    var idx :| SubsequenceAt(tasks, Search(tasks, term), idx)
               && forall i :: 0 <= i < |tasks| ==> (i in idx <==> Matching(term)(tasks[i]));
    forall i | 0 <= i < |tasks|
      ensures Matching(term)(tasks[i]) <==> MentionsTerm(tasks[i], term)
    {
      IncludesIffOccurs(ToLower(tasks[i].text), ToLower(term));
    }
    assert SubsequenceAt(tasks, Search(tasks, term), idx);
  }

  /** An empty search term shows the whole list, unchanged. */
  lemma SearchEmptyTermIsIdentity(tasks: seq<Task>)
    ensures Search(tasks, "") == tasks
  {
    forall t | t in tasks
      ensures Matching("")(t)
    {
      IncludesEmpty(ToLower(t.text));
    }
    FilterAllPass(tasks, Matching(""));
  }

  /** Terms that lower-case alike give the same result. */
  lemma {:induction false} SearchCaseInsensitive(tasks: seq<Task>, a: string, b: string)
    requires ToLower(a) == ToLower(b)
    ensures Search(tasks, a) == Search(tasks, b)
  {
    if tasks != [] {
      SearchCaseInsensitive(tasks[1..], a, b);
    }
  }

  /** Searching for a term is searching for its lower-cased form. */
  lemma SearchLowerTerm(tasks: seq<Task>, term: string)
    ensures Search(tasks, ToLower(term)) == Search(tasks, term)
  {
    ToLowerIdempotent(term);
    SearchCaseInsensitive(tasks, ToLower(term), term);
  }

  /** Appending a task whose id no task carries keeps ids unique. */
  lemma AppendFreshKeepsUnique(tasks: seq<Task>, t: Task)
    requires UniqueIds(tasks) && !HasId(tasks, t.id)
    ensures UniqueIds(tasks + [t])
  {
    var r := tasks + [t];
    forall i, j | 0 <= i < j < |r|
      ensures r[i].id != r[j].id
    {
      if j == |tasks| {
        assert r[i] == tasks[i];
      }
    }
  }
}
