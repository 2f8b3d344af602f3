/** The list of saved prompts as a value: the record kept for each prompt,
    the look-up, update and removal by id the store performs on it, and the
    title filter that decides which prompts the side list shows. */
module PromptList {
  import opened Text

  datatype Option<T> = None | Some(value: T)

  /** One saved prompt: an opaque id, a title and its rich-text content. */
  datatype Prompt = Prompt(id: string, title: string, content: string)

  /** Some prompt of `ps` carries `id`. */
  predicate HasId(ps: seq<Prompt>, id: string) {
    exists i :: 0 <= i < |ps| && ps[i].id == id
  }

  /** No two prompts of `ps` share an id. */
  predicate UniqueIds(ps: seq<Prompt>) {
    forall i, j :: 0 <= i < j < |ps| ==> ps[i].id != ps[j].id
  }

  /** The ids of `ps`, in list order. */
  function Ids(ps: seq<Prompt>): seq<string> {
    seq(|ps|, i requires 0 <= i < |ps| => ps[i].id)
  }

  /** How many prompts of `ps` carry `id`. */
  function CountId(ps: seq<Prompt>, id: string): (n: nat)
    ensures n <= |ps|
    ensures n == 0 <==> !HasId(ps, id)
  {
    if ps == [] then 0
    else (if ps[0].id == id then 1 else 0) + CountId(ps[1..], id)
  }

  /** `k` is the position of the first prompt of `ps` that carries `id`. */
  predicate IsFirst(ps: seq<Prompt>, id: string, k: nat) {
    k < |ps| && ps[k].id == id && forall j :: 0 <= j < k ==> ps[j].id != id
  }

  /** The position Array.prototype.find stops at when it looks for `id`. */
  function FindIndex(ps: seq<Prompt>, id: string): (r: Option<nat>)
    ensures r.None? <==> !HasId(ps, id)
    ensures r.Some? ==> IsFirst(ps, id, r.value)
  {
    if ps == [] then None
    else if ps[0].id == id then Some(0)
    else match FindIndex(ps[1..], id)
      case None => None
      case Some(k) => Some(k + 1)
  }

  /** `ps.find(p => p.id === id)`: the first prompt that carries `id`, or
      nothing when no prompt does. */
  function Find(ps: seq<Prompt>, id: string): (r: Option<Prompt>)
    ensures r.None? <==> !HasId(ps, id)
    ensures r.Some? ==> exists k: nat :: IsFirst(ps, id, k) && r.value == ps[k]
  {
    match FindIndex(ps, id)
    case None => None
    case Some(k) => Some(ps[k])
  }

  /** Editing the prompt that carries `id`: `find` picks the first such
      prompt and its title and content are overwritten in place, so its id
      and position and every other prompt stay as they were. With no such
      prompt the list is unchanged. */
  function UpdateFirst(ps: seq<Prompt>, id: string, title: string, content: string): (r: seq<Prompt>)
    ensures |r| == |ps| && Ids(r) == Ids(ps)
    ensures !HasId(ps, id) ==> r == ps
    ensures HasId(ps, id) ==> exists k: nat :: (IsFirst(ps, id, k)
      && r[k] == Prompt(id, title, content)
      && forall i :: 0 <= i < |ps| && i != k ==> r[i] == ps[i])
  {
    match FindIndex(ps, id)
    case None => ps
    case Some(k) => ps[k := ps[k].(title := title, content := content)]
  }

  /** When ids are unique, the edit reaches every prompt that carries the id
      and no other, and ids stay unique. */
  lemma UpdateFirstUnique(ps: seq<Prompt>, id: string, title: string, content: string)
    requires UniqueIds(ps)
    ensures var r := UpdateFirst(ps, id, title, content);
      && UniqueIds(r)
      && forall i :: 0 <= i < |ps| ==>
           r[i] == (if ps[i].id == id then Prompt(id, title, content) else ps[i])
  {
    var r := UpdateFirst(ps, id, title, content);
    forall i, j | 0 <= i < j < |r| ensures r[i].id != r[j].id {
      assert r[i].id == Ids(r)[i] == Ids(ps)[i];
      assert r[j].id == Ids(r)[j] == Ids(ps)[j];
    }
  }

  /** Putting a prompt with a new id in front keeps ids unique. */
  lemma PrependKeepsUniqueIds(p: Prompt, ps: seq<Prompt>)
    requires UniqueIds(ps) && !HasId(ps, p.id)
    ensures UniqueIds([p] + ps)
  {
    var r := [p] + ps;
    forall j | 0 < j < |r| ensures r[0].id != r[j].id {
      assert r[j] == ps[j - 1];
    }
  }

  /** Array.prototype.filter: the elements of `s` that `keep` accepts, in
      their original order. */
  function Filter<T>(s: seq<T>, keep: T -> bool): (r: seq<T>)
    ensures |r| <= |s|
    ensures forall x :: x in r ==> x in s && keep(x)
  {
    if s == [] then []
    else if keep(s[0]) then [s[0]] + Filter(s[1..], keep)
    else Filter(s[1..], keep)
  }

  /** `a` is `b` with some elements left out and the rest in their order. */
  predicate IsSubsequence<T(==)>(a: seq<T>, b: seq<T>)
    decreases |b|
  {
    if a == [] then true
    else if b == [] then false
    else if a[0] == b[0] then IsSubsequence(a[1..], b[1..])
    else IsSubsequence(a, b[1..])
  }

  /** A filter keeps the relative order of what it keeps. */
  lemma {:induction false} FilterIsSubsequence<T>(s: seq<T>, keep: T -> bool)
    ensures IsSubsequence(Filter(s, keep), s)
  {
    if s != [] {
      FilterIsSubsequence(s[1..], keep);
      var rest := Filter(s[1..], keep);
      if keep(s[0]) {
        assert ([s[0]] + rest)[1..] == rest;
      } else {
        SkipHead(rest, s);
      }
    }
  }

  /** Dropping a first element that `a` does not need keeps `a` a subsequence. */
  lemma {:induction false} SkipHead<T>(a: seq<T>, b: seq<T>)
    requires b != [] && IsSubsequence(a, b[1..])
    ensures IsSubsequence(a, b)
    decreases |b|
  {
    if a != [] && a[0] == b[0] {
      SubsequenceOfTail(a, b[1..]);
      if a[1..] != [] {
        SkipHead(a[1..], b[1..]);
      }
    }
  }

  /** A nonempty subsequence of `b` with its head removed is a subsequence of
      `b` with its head removed. */
  lemma {:induction false} SubsequenceOfTail<T>(a: seq<T>, b: seq<T>)
    requires a != [] && IsSubsequence(a, b)
    ensures IsSubsequence(a[1..], b[1..])
    decreases |b|
  {
    if a[0] != b[0] {
      SubsequenceOfTail(a, b[1..]);
      SkipHead(a[1..], b[1..]);
    }
  }

  /** Exactly the accepted elements survive, each as often as in `s`. */
  lemma {:induction false} FilterCounts<T>(s: seq<T>, keep: T -> bool, x: T)
    ensures multiset(Filter(s, keep))[x] == if keep(x) then multiset(s)[x] else 0
  {
    if s != [] {
      FilterCounts(s[1..], keep, x);
      assert s == [s[0]] + s[1..];
    }
  }

  /** Filtering what a filter kept, with the same test, changes nothing. */
  lemma {:induction false} FilterIdempotent<T>(s: seq<T>, keep: T -> bool)
    ensures Filter(Filter(s, keep), keep) == Filter(s, keep)
  {
    FilterKeepsAll(Filter(s, keep), keep);
  }

  /** A filter that accepts every element returns the whole sequence. */
  lemma {:induction false} FilterKeepsAll<T>(s: seq<T>, keep: T -> bool)
    requires forall x :: x in s ==> keep(x)
    ensures Filter(s, keep) == s
  {
    if s != [] {
      FilterKeepsAll(s[1..], keep);
      assert [s[0]] + s[1..] == s;
    }
  }

  /** Filtering a list with unique ids leaves the ids unique. */
  lemma {:induction false} FilterKeepsUniqueIds(ps: seq<Prompt>, keep: Prompt -> bool)
    requires UniqueIds(ps)
    ensures UniqueIds(Filter(ps, keep))
  {
    if ps != [] {
      FilterKeepsUniqueIds(ps[1..], keep);
      if keep(ps[0]) {
        var rest := Filter(ps[1..], keep);
        var r := [ps[0]] + rest;
        forall j | 0 < j < |r| ensures r[0].id != r[j].id {
          assert r[j] in ps[1..];
        }
      }
    }
  }

  /** The test the removal hands to `filter`: keep the prompts with another id. */
  function OtherId(id: string): Prompt -> bool {
    (p: Prompt) => p.id != id
  }

  /** `ps.filter(p => p.id !== id)`: the list without the prompts carrying `id`. */
  function RemoveId(ps: seq<Prompt>, id: string): (r: seq<Prompt>)
    ensures |r| <= |ps|
    ensures forall p :: p in r ==> p in ps && p.id != id
  {
    Filter(ps, OtherId(id))
  }

  /** After a removal no prompt carries the id, the others all remain in their
      order, and the list shrinks by the number of prompts that carried it. */
  lemma {:induction false} RemoveIdSpec(ps: seq<Prompt>, id: string)
    ensures var r := RemoveId(ps, id);
      && !HasId(r, id)
      && IsSubsequence(r, ps)
      && (forall p :: p in ps && p.id != id ==> p in r)
      && |r| == |ps| - CountId(ps, id)
  {
    var r := RemoveId(ps, id);
    forall i | 0 <= i < |r| ensures r[i].id != id {
      assert r[i] in r;
    }
    FilterIsSubsequence(ps, OtherId(id));
    forall p | p in ps && p.id != id ensures p in r {
      FilterCounts(ps, OtherId(id), p);
    }
    RemoveIdLength(ps, id);
  }

  lemma {:induction false} RemoveIdLength(ps: seq<Prompt>, id: string)
    ensures |RemoveId(ps, id)| == |ps| - CountId(ps, id)
  {
    if ps != [] {
      RemoveIdLength(ps[1..], id);
    }
  }

  /** With unique ids, a removal drops one prompt when the id is present and
      none when it is absent (then the list is unchanged), and ids stay unique. */
  lemma {:induction false} RemoveIdUnique(ps: seq<Prompt>, id: string)
    requires UniqueIds(ps)
    ensures UniqueIds(RemoveId(ps, id))
    ensures |RemoveId(ps, id)| == if HasId(ps, id) then |ps| - 1 else |ps|
  {
    FilterKeepsUniqueIds(ps, OtherId(id));
    RemoveIdSpec(ps, id);
    CountUnique(ps, id);
  }

  /** With unique ids, an id is carried by at most one prompt. */
  lemma {:induction false} CountUnique(ps: seq<Prompt>, id: string)
    requires UniqueIds(ps)
    ensures CountId(ps, id) == if HasId(ps, id) then 1 else 0
  {
    if ps != [] {
      CountUnique(ps[1..], id);
      if ps[0].id == id {
        assert !HasId(ps[1..], id) by {
          forall i | 0 <= i < |ps[1..]| ensures ps[1..][i].id != id {
            assert ps[1..][i] == ps[i + 1];
          }
        }
      } else if HasId(ps, id) {
        var i :| 0 <= i < |ps| && ps[i].id == id;
        assert ps[1..][i - 1].id == id;
      }
    }
  }

  /** Removing an absent id leaves the list as it was. */
  lemma RemoveAbsent(ps: seq<Prompt>, id: string)
    requires !HasId(ps, id)
    ensures RemoveId(ps, id) == ps
  {
    FilterKeepsAll(ps, OtherId(id));
  }

  /** Looking up a removed id finds nothing. */
  lemma FindAfterRemove(ps: seq<Prompt>, id: string)
    ensures Find(RemoveId(ps, id), id) == None
  {
    RemoveIdSpec(ps, id);
  }

  /** The search test of the side list: the lowercased title includes the
      lowercased, then trimmed, filter text. */
  predicate Matches(p: Prompt, filterText: string)
    ensures Trim(Lower(filterText)) == "" ==> Matches(p, filterText)
    ensures Matches(p, filterText) ==> |Trim(Lower(filterText))| <= |p.title|
  {
    Includes(Lower(p.title), Trim(Lower(filterText)))
  }

  /** The test the side list hands to `filter`. */
  function TitleMatches(filterText: string): Prompt -> bool {
    (p: Prompt) => Matches(p, filterText)
  }

  /** The prompts the side list shows for a filter text. */
  function Visible(ps: seq<Prompt>, filterText: string): (r: seq<Prompt>)
    ensures |r| <= |ps|
    ensures forall p :: p in r ==> p in ps && Matches(p, filterText)
  {
    Filter(ps, TitleMatches(filterText))
  }

  /** The shown prompts are exactly the matching ones, each as often as in the
      list, and in list order. */
  lemma VisibleSpec(ps: seq<Prompt>, filterText: string)
    ensures var r := Visible(ps, filterText);
      && (forall p :: p in r ==> Matches(p, filterText))
      && IsSubsequence(r, ps)
      && (forall p :: multiset(r)[p] == if Matches(p, filterText) then multiset(ps)[p] else 0)
  {
    var r := Visible(ps, filterText);
    FilterIsSubsequence(ps, TitleMatches(filterText));
    forall p ensures multiset(r)[p] == if Matches(p, filterText) then multiset(ps)[p] else 0 {
      FilterCounts(ps, TitleMatches(filterText), p);
    }
  }

  /** Filtering the shown list again with the same text changes nothing. */
  lemma VisibleIdempotent(ps: seq<Prompt>, filterText: string)
    ensures Visible(Visible(ps, filterText), filterText) == Visible(ps, filterText)
  {
    FilterIdempotent(ps, TitleMatches(filterText));
  }

  /** A filter text that is empty or only white space shows every prompt. */
  lemma VisibleBlank(ps: seq<Prompt>, filterText: string)
    requires IsBlank(filterText)
    ensures Visible(ps, filterText) == ps
  {
    assert IsBlank(Lower(filterText));
    TrimEmptyIffBlank(Lower(filterText));
    forall p | p in ps ensures TitleMatches(filterText)(p) {
    }
    FilterKeepsAll(ps, TitleMatches(filterText));
  }

  /** The empty filter text, which the side list starts with and returns to
      on New, shows every prompt. */
  lemma VisibleEmpty(ps: seq<Prompt>)
    ensures Visible(ps, "") == ps
  {
    VisibleBlank(ps, "");
  }

  /** One stored prompt titled "Greeting": the search text "great" hides it
      and " GREET " shows it, as the search is case-insensitive and trimmed. */
  lemma GreetingScenario()
    ensures Visible([Greeting()], "great") == []
    ensures Visible([Greeting()], " GREET ") == [Greeting()]
  {
    GreatHidesGreeting();
    GreetShowsGreeting();
  }

  function Greeting(): Prompt {
    Prompt("a", "Greeting", "Hello")
  }

  lemma GreatHidesGreeting()
    ensures !Matches(Greeting(), "great")
  {
    LowerGreeting();
    TrimGreat();
    GreatNotInGreeting();
  }

  lemma GreetShowsGreeting()
    ensures Matches(Greeting(), " GREET ")
  {
    LowerGreeting();
    TrimGreet();
    GreetInGreeting();
  }

  lemma LowerGreeting()
    ensures Lower("Greeting") == "greeting"
    ensures Lower("great") == "great"
    ensures Lower(" GREET ") == " greet "
  {
  }

  lemma TrimGreat()
    ensures Trim("great") == "great"
  {
  }

  lemma GreatNotInGreeting()
    ensures !Includes("greeting", "great")
  {
    var t := "greeting";
    assert t[1..][1..] == t[2..] && t[2..][1..] == t[3..] && t[3..][1..] == t[4..];
    assert |t[4..]| < |"great"|;
    assert !Includes(t[4..], "great");
    assert !StartsWith(t[3..], "great") by { assert t[3..][0] == 'e'; }
    assert !Includes(t[3..], "great");
    assert !StartsWith(t[2..], "great") by { assert t[2..][0] == 'e'; }
    assert !Includes(t[2..], "great");
    assert !StartsWith(t[1..], "great") by { assert t[1..][0] == 'r'; }
    assert !Includes(t[1..], "great");
    assert !StartsWith(t, "great") by { assert t[..5][3] == 'e'; }
  }

  lemma TrimPadded(x: string)
    requires x != [] && !IsTrimmable(x[0]) && !IsTrimmable(x[|x| - 1])
    ensures Trim([' '] + x + [' ']) == x
  {
    var s := [' '] + x + [' '];
    assert s[1..] == x + [' '];
    assert TrimStart(s) == x + [' '];
    assert (x + [' '])[..|x|] == x;
  }

  lemma TrimGreet()
    ensures Trim(" greet ") == "greet"
  {
    assert " greet " == [' '] + "greet" + [' '];
    TrimPadded("greet");
  }

  lemma GreetInGreeting()
    ensures Includes("greeting", "greet")
  {
    assert StartsWith("greeting", "greet");
  }
}
