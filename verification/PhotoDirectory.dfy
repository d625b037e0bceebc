// The photo handlers over the two tables and the photo directory: which requests
// leave every photo with the file that was uploaded for it.

module PhotoDirectory {
  import opened Gallery
  import opened Options
  import Multipart

  type Saved = Multipart.Saved

  /** The tables, and the photo directory as a map from file names to contents. */
  datatype World = World(store: Store, disk: map<string, string>)

  datatype Action =
    | Send(item: nat, saved: seq<Saved>, caption: string)
    | Change(item: nat, photo: nat, newCaption: Option<string>, makePrimary: bool, newSort: Option<int>)
    | Remove(item: nat, photo: nat)

  function Names(saved: seq<Saved>): (names: seq<string>)
    ensures |names| == |saved| && forall i :: 0 <= i < |names| ==> names[i] == saved[i].filename
  {
    seq(|saved|, i requires 0 <= i < |saved| => saved[i].filename)
  }

  function WriteAll(disk: map<string, string>, saved: seq<Saved>): map<string, string>
    decreases saved
  {
    if saved == [] then disk else WriteAll(disk[saved[0].filename := saved[0].content], saved[1..])
  }

  /** What a request asks of the tables. */
  function Asked(a: Action): Request {
    match a
    case Send(item, saved, caption) => Upload(item, Names(saved), caption)
    case Change(item, photo, newCaption, makePrimary, newSort) => Update(item, photo, newCaption, makePrimary, newSort)
    case Remove(item, photo) => Delete(item, photo)
  }

  function DiskAfter(w: World, a: Action): map<string, string> {
    match a
    case Send(_, saved, _) => WriteAll(w.disk, saved)
    case Change(_, _, _, _, _) => w.disk
    case Remove(_, photo) =>
      match IndexOf(w.store.photos, photo)
      case None => w.disk
      case Some(k) => w.disk - {w.store.photos[k].filename}
  }

  function Act(w: World, a: Action): World {
    World(Step(w.store, Asked(a)), DiskAfter(w, a))
  }

  // ---- Every photo has its file ----

  /** What was uploaded for each row, by row id. */
  type Origin = map<nat, string>

  function NoteAll(origin: Origin, saved: seq<Saved>, id: nat): Origin
    decreases saved
  {
    if saved == [] then origin else NoteAll(origin[id := saved[0].content], saved[1..], id + 1)
  }

  lemma {:induction false} NoteAllAt(origin: Origin, saved: seq<Saved>, id: nat, at: nat)
    ensures var after := NoteAll(origin, saved, id);
            && (at in after <==> at in origin || id <= at < id + |saved|)
            && (at in after ==> after[at] == if id <= at < id + |saved| then saved[at - id].content else origin[at])
    decreases saved
  {
    if saved != [] {
      NoteAllAt(origin[id := saved[0].content], saved[1..], id + 1, at);
    }
  }

  function Noted(w: World, origin: Origin, a: Action): Origin {
    if a.Send? && a.item in w.store.refs then NoteAll(origin, a.saved, w.store.nextId) else origin
  }

  /** Row `k` finds the file that was uploaded for it. */
  predicate RowIntact(w: World, origin: Origin, k: nat)
    requires k < |w.store.photos|
  {
    var p := w.store.photos[k];
    p.id in origin && p.filename in w.disk && w.disk[p.filename] == origin[p.id]
  }

  ghost predicate Intact(w: World, origin: Origin) {
    forall k: nat :: k < |w.store.photos| ==> RowIntact(w, origin, k)
  }

  /** The content an upload leaves under a name, if it writes that name. */
  function LastWritten(saved: seq<Saved>, name: string): Option<string> {
    if saved == [] then None
    else
      var n := |saved| - 1;
      if saved[n].filename == name then Some(saved[n].content) else LastWritten(saved[..n], name)
  }

  /**
   * What can be checked before a request: an upload writes over no file of a row with other content,
   * its own included, and a removal takes no file that another row still names.
   */
  predicate Harmless(w: World, a: Action) {
    match a
    case Send(item, saved, _) =>
      && (forall k :: 0 <= k < |w.store.photos| && w.store.photos[k].filename in w.disk ==>
            var last := LastWritten(saved, w.store.photos[k].filename);
            last == None || last == Some(w.disk[w.store.photos[k].filename]))
      && (item in w.store.refs ==>
            forall i :: 0 <= i < |saved| ==> LastWritten(saved, saved[i].filename) == Some(saved[i].content))
    case Change(_, _, _, _, _) => true
    case Remove(_, photo) =>
      var ps := w.store.photos;
      forall j, k :: 0 <= j < |ps| && 0 <= k < |ps| && ps[k].id == photo && j != k ==>
        ps[j].filename != ps[k].filename
  }

  // ---- Uploads ----

  lemma {:induction false} WriteAllSnoc(disk: map<string, string>, saved: seq<Saved>, f: Saved)
    ensures WriteAll(disk, saved + [f]) == WriteAll(disk, saved)[f.filename := f.content]
    decreases saved
  {
    if saved == [] {
      assert [] + [f] == [f] && [f][1..] == [];
    } else {
      assert (saved + [f])[0] == saved[0] && (saved + [f])[1..] == saved[1..] + [f];
      WriteAllSnoc(disk[saved[0].filename := saved[0].content], saved[1..], f);
    }
  }

  /** After an upload a name holds what was written last, or what it held before. */
  lemma {:induction false} WriteAllAt(disk: map<string, string>, saved: seq<Saved>, name: string)
    ensures var after, last := WriteAll(disk, saved), LastWritten(saved, name);
            && (name in after <==> last.Some? || name in disk)
            && (name in after ==> after[name] == if last.Some? then last.value else disk[name])
    decreases saved
  {
    if saved != [] {
      var n := |saved| - 1;
      assert saved == saved[..n] + [saved[n]];
      WriteAllSnoc(disk, saved[..n], saved[n]);
      WriteAllAt(disk, saved[..n], name);
    }
  }

  lemma {:induction false} WrittenNames(saved: seq<Saved>, i: nat)
    requires i < |saved|
    ensures LastWritten(saved, saved[i].filename).Some?
    decreases saved
  {
    if i < |saved| - 1 {
      WrittenNames(saved[..|saved| - 1], i);
    }
  }

  lemma {:induction false} InsertNowhere(s: Store, item: nat, files: seq<string>, caption: string, need: bool,
                                         sort: int)
    requires item !in s.refs
    ensures InsertAll(s, item, files, caption, need, sort) == s
    decreases files
  {
    if files != [] {
      InsertNowhere(s, item, files[1..], caption, false, sort + 1);
    }
  }

  /** The rows of a store after an upload: those before, and one for each file if the item exists. */
  lemma SendRows(s: Store, item: nat, saved: seq<Saved>, caption: string)
    ensures var t := Step(s, Upload(item, Names(saved), caption));
            var added := if item in s.refs then |saved| else 0;
            && |t.photos| == |s.photos| + added
            && (forall k :: 0 <= k < |s.photos| ==> t.photos[k] == s.photos[k])
            && (forall k :: |s.photos| <= k < |t.photos| ==>
                  && t.photos[k].id == s.nextId + (k - |s.photos|)
                  && t.photos[k].filename == saved[k - |s.photos|].filename)
  {
    hide InsertAll, HasPrimary, MaxSort;
    if item in s.refs {
      InsertAllRows(s, item, Names(saved), caption, !HasPrimary(s.photos, item), MaxSort(s.photos, item));
    } else {
      InsertNowhere(s, item, Names(saved), caption, !HasPrimary(s.photos, item), MaxSort(s.photos, item));
    }
  }

  lemma OldRowAfterSend(w: World, origin: Origin, item: nat, saved: seq<Saved>, caption: string, k: nat)
    requires RowsSound(w.store) && k < |w.store.photos| && RowIntact(w, origin, k)
    ensures var a := Send(item, saved, caption);
            var last := LastWritten(saved, w.store.photos[k].filename);
            && k < |Act(w, a).store.photos|
            && (RowIntact(Act(w, a), Noted(w, origin, a), k) <==>
                last == None || last == Some(w.disk[w.store.photos[k].filename]))
  {
    hide WriteAll, LastWritten, Step, NoteAll;
    SendRows(w.store, item, saved, caption);
    WriteAllAt(w.disk, saved, w.store.photos[k].filename);
    NoteAllAt(origin, saved, w.store.nextId, w.store.photos[k].id);
  }

  lemma NewRowAfterSend(w: World, origin: Origin, item: nat, saved: seq<Saved>, caption: string, i: nat)
    requires item in w.store.refs && i < |saved|
    ensures var a := Send(item, saved, caption);
            var k := |w.store.photos| + i;
            && k < |Act(w, a).store.photos|
            && (RowIntact(Act(w, a), Noted(w, origin, a), k) <==>
                LastWritten(saved, saved[i].filename) == Some(saved[i].content))
  {
    hide WriteAll, LastWritten, Step, NoteAll;
    SendRows(w.store, item, saved, caption);
    WriteAllAt(w.disk, saved, saved[i].filename);
    NoteAllAt(origin, saved, w.store.nextId, w.store.nextId + i);
    WrittenNames(saved, i);
  }

  lemma SendExact(w: World, origin: Origin, item: nat, saved: seq<Saved>, caption: string)
    requires RowsSound(w.store) && Intact(w, origin)
    ensures var a := Send(item, saved, caption);
            Intact(Act(w, a), Noted(w, origin, a)) <==> Harmless(w, a)
  {
    hide Step, RowIntact, LastWritten, RowsSound, Noted, DiskAfter;
    var a := Send(item, saved, caption);
    var v, n := Act(w, a), |w.store.photos|;
    SendRows(w.store, item, saved, caption);
    IntactNames(w, origin);
    forall k: nat | k < n
      ensures var last := LastWritten(saved, w.store.photos[k].filename);
              RowIntact(v, Noted(w, origin, a), k) <==> last == None || last == Some(w.disk[w.store.photos[k].filename])
    {
      OldRowAfterSend(w, origin, item, saved, caption, k);
    }
    if item in w.store.refs {
      forall i: nat | i < |saved|
        ensures RowIntact(v, Noted(w, origin, a), n + i) <==>
                LastWritten(saved, saved[i].filename) == Some(saved[i].content)
      {
        NewRowAfterSend(w, origin, item, saved, caption, i);
      }
      if Harmless(w, a) {
        forall k: nat | k < |v.store.photos| ensures RowIntact(v, Noted(w, origin, a), k) {
          if k >= n {
            NewRowAfterSend(w, origin, item, saved, caption, k - n);
          }
        }
      }
    }
  }

  lemma IntactNames(w: World, origin: Origin)
    requires Intact(w, origin)
    ensures forall k :: 0 <= k < |w.store.photos| ==> w.store.photos[k].filename in w.disk
  {
    forall k | 0 <= k < |w.store.photos| ensures w.store.photos[k].filename in w.disk {
      assert RowIntact(w, origin, k);
    }
  }

  // ---- Updates and removals ----

  /** The same rows as far as ids and file names go. */
  predicate SameNames(s: Store, t: Store) {
    && |t.photos| == |s.photos|
    && forall i :: 0 <= i < |s.photos| ==>
         t.photos[i].id == s.photos[i].id && t.photos[i].filename == s.photos[i].filename
  }

  lemma MakePrimaryNames(s: Store, item: nat, photo: nat)
    ensures SameNames(s, MakePrimary(s, item, photo))
  {
    hide IndexOf;
  }

  lemma PromoteNames(s: Store, item: nat)
    ensures SameNames(s, Promote(s, item))
  {
    hide FirstOf;
  }

  lemma ChangeExact(w: World, origin: Origin, item: nat, photo: nat, newCaption: Option<string>, makePrimary: bool,
                    newSort: Option<int>)
    requires Intact(w, origin)
    ensures var a := Change(item, photo, newCaption, makePrimary, newSort);
            Intact(Act(w, a), Noted(w, origin, a))
  {
    hide MakePrimary, SetCaption, SetSort;
    var s := w.store;
    var a := if newCaption.Some? then SetCaption(s, photo, newCaption.value) else s;
    if newCaption.Some? {
      SetCaptionSame(s, photo, newCaption.value);
    }
    MakePrimaryNames(a, item, photo);
    var b := if makePrimary then MakePrimary(a, item, photo) else a;
    if newSort.Some? {
      SetSortSame(b, photo, newSort.value);
    }
    var t := Step(s, Update(item, photo, newCaption, makePrimary, newSort));
    assert SameNames(s, t);
    SameNamesIntact(w, t, origin);
  }

  lemma SameNamesIntact(w: World, t: Store, origin: Origin)
    requires SameNames(w.store, t) && Intact(w, origin)
    ensures Intact(World(t, w.disk), origin)
  {
    forall k: nat | k < |t.photos| ensures RowIntact(World(t, w.disk), origin, k) {
      assert RowIntact(w, origin, k);
    }
  }

  /** What is left of the rows when row `k` is deleted. */
  lemma RemoveRows(s: Store, item: nat, k: nat)
    requires RowsSound(s) && k < |s.photos|
    ensures IndexOf(s.photos, s.photos[k].id) == Some(k)
    ensures SameNames(Without(s, k), Step(s, Delete(item, s.photos[k].id)))
  {
    hide Promote;
    UniqueIndex(s, k);
    PromoteNames(Without(s, k), item);
  }

  lemma RemoveOne(w: World, origin: Origin, item: nat, k: nat)
    requires RowsSound(w.store) && Intact(w, origin) && k < |w.store.photos|
    ensures var a := Remove(item, w.store.photos[k].id);
            Intact(Act(w, a), Noted(w, origin, a)) <==>
            forall j :: 0 <= j < |w.store.photos| && j != k ==>
              w.store.photos[j].filename != w.store.photos[k].filename
  {
    hide RowsSound, IndexOf, Step;
    var s, a := w.store, Remove(item, w.store.photos[k].id);
    RemoveRows(s, item, k);
    var v := Act(w, a);
    assert v.disk == w.disk - {s.photos[k].filename};
    forall j: nat | j < |s.photos| && j != k
      ensures var at := if j < k then j else j - 1;
              at < |v.store.photos| &&
              (RowIntact(v, origin, at) <==> s.photos[j].filename != s.photos[k].filename)
    {
      assert RowIntact(w, origin, j);
      assert Without(s, k).photos[if j < k then j else j - 1] == s.photos[j];
    }
    if forall j :: 0 <= j < |s.photos| && j != k ==> s.photos[j].filename != s.photos[k].filename {
      forall at: nat | at < |v.store.photos| ensures RowIntact(v, origin, at) {
        var j := if at < k then at else at + 1;
        assert s.photos[j].filename != s.photos[k].filename;
      }
    }
  }

  lemma RemoveExact(w: World, origin: Origin, item: nat, photo: nat)
    requires RowsSound(w.store) && Intact(w, origin)
    ensures var a := Remove(item, photo);
            Intact(Act(w, a), Noted(w, origin, a)) <==> Harmless(w, a)
  {
    hide RowsSound, Act, RowIntact, IndexOf;
    if k: nat :| k < |w.store.photos| && w.store.photos[k].id == photo {
      RemoveOne(w, origin, item, k);
      OnlyId(w.store, k);
    } else {
      NothingRemoved(w, item, photo);
    }
  }

  lemma OnlyId(s: Store, k: nat)
    requires RowsSound(s) && k < |s.photos|
    ensures forall j :: 0 <= j < |s.photos| && s.photos[j].id == s.photos[k].id ==> j == k
  {
  }

  lemma NothingRemoved(w: World, item: nat, photo: nat)
    requires forall k :: 0 <= k < |w.store.photos| ==> w.store.photos[k].id != photo
    ensures Act(w, Remove(item, photo)) == w
  {
  }

  /** A request leaves every photo with the file uploaded for it exactly when it was harmless. */
  lemma ActExact(w: World, origin: Origin, a: Action)
    requires RowsSound(w.store) && Intact(w, origin)
    ensures Intact(Act(w, a), Noted(w, origin, a)) <==> Harmless(w, a)
  {
    hide Intact, Act, Noted, RowsSound;
    match a
    case Send(item, saved, caption) => SendExact(w, origin, item, saved, caption);
    case Change(item, photo, newCaption, makePrimary, newSort) =>
      ChangeExact(w, origin, item, photo, newCaption, makePrimary, newSort);
    case Remove(item, photo) => RemoveExact(w, origin, item, photo);
  }

  // ---- Whole runs ----

  lemma {:induction false} InsertAllSound(s: Store, item: nat, files: seq<string>, caption: string, need: bool,
                                          sort: int)
    requires RowsSound(s) && forall i :: 0 <= i < |files| ==> files[i] != ""
    ensures RowsSound(InsertAll(s, item, files, caption, need, sort))
    decreases files
  {
    if files != [] {
      InsertAllSound(Insert(s, item, files[0], caption, need, sort + 1), item, files[1..], caption, false, sort + 1);
    }
  }

  /** Any well-formed request keeps ids unique and rows with their items. */
  lemma StepSound(s: Store, r: Request)
    requires RowsSound(s) && WellFormed(r)
    ensures RowsSound(Step(s, r))
  {
    hide RowsSound, InsertAll, HasPrimary, MaxSort, Promote;
    match r
    case Upload(item, files, caption) =>
      InsertAllSound(s, item, files, caption, !HasPrimary(s.photos, item), MaxSort(s.photos, item));
    case Update(item, photo, newCaption, makePrimary, newSort) =>
      UpdateSound(s, item, photo, newCaption, makePrimary, newSort);
    case Delete(item, photo) => DeleteSound(s, item, photo);
  }

  lemma DeleteSound(s: Store, item: nat, photo: nat)
    requires RowsSound(s)
    ensures RowsSound(Step(s, Delete(item, photo)))
  {
    hide RowsSound, Promote;
    if k: nat :| k < |s.photos| && s.photos[k].id == photo {
      UniqueIndex(s, k);
      WithoutSound(s, k);
      PromoteSound(Without(s, k), item);
    }
  }

  lemma PromoteSound(s: Store, item: nat)
    requires RowsSound(s)
    ensures RowsSound(Promote(s, item))
  {
    hide FirstOf;
  }

  lemma UpdateSound(s: Store, item: nat, photo: nat, newCaption: Option<string>, makePrimary: bool,
                    newSort: Option<int>)
    requires RowsSound(s)
    ensures RowsSound(Step(s, Update(item, photo, newCaption, makePrimary, newSort)))
  {
    hide RowsSound, SetCaption, SetSort, MakePrimary;
    var a := if newCaption.Some? then SetCaption(s, photo, newCaption.value) else s;
    if newCaption.Some? {
      SetCaptionSame(s, photo, newCaption.value);
    }
    SameRowsSound(s, a);
    MakePrimarySound(a, item, photo);
    var b := if makePrimary then MakePrimary(a, item, photo) else a;
    if newSort.Some? {
      SetSortSame(b, photo, newSort.value);
      SameRowsSound(b, SetSort(b, photo, newSort.value));
    }
  }

  lemma MakePrimarySound(s: Store, item: nat, photo: nat)
    requires RowsSound(s)
    ensures RowsSound(MakePrimary(s, item, photo))
  {
    hide IndexOf, RowsSound;
    SameRowsSound(s, MakePrimary(s, item, photo));
  }

  function RunActs(w: World, acts: seq<Action>): World
    decreases acts
  {
    if acts == [] then w else RunActs(Act(w, acts[0]), acts[1..])
  }

  function OriginAfter(w: World, origin: Origin, acts: seq<Action>): Origin
    decreases acts
  {
    if acts == [] then origin else OriginAfter(Act(w, acts[0]), Noted(w, origin, acts[0]), acts[1..])
  }

  predicate HarmlessRun(w: World, acts: seq<Action>)
    decreases acts
  {
    acts == [] ||
    (WellFormed(Asked(acts[0])) && Harmless(w, acts[0]) && HarmlessRun(Act(w, acts[0]), acts[1..]))
  }

  predicate AllProper(acts: seq<Action>) {
    forall i :: 0 <= i < |acts| ==> WellFormed(Asked(acts[i]))
  }

  /** Every photo has its file after each request of the run. */
  ghost predicate AlwaysIntact(w: World, origin: Origin, acts: seq<Action>)
    decreases acts
  {
    Intact(w, origin) &&
    (acts == [] || AlwaysIntact(Act(w, acts[0]), Noted(w, origin, acts[0]), acts[1..]))
  }

  /** A run is harmless exactly when its requests are well-formed and keep every file all the way. */
  lemma {:induction false} RunIntactExact(w: World, origin: Origin, acts: seq<Action>)
    requires RowsSound(w.store) && Intact(w, origin)
    ensures HarmlessRun(w, acts) <==> AllProper(acts) && AlwaysIntact(w, origin, acts)
    decreases acts
  {
    hide Intact, RowsSound, Harmless, WellFormed, Step, DiskAfter, Noted;
    if acts != [] && WellFormed(Asked(acts[0])) {
      ActExact(w, origin, acts[0]);
      StepSound(w.store, Asked(acts[0]));
      assert AllProper(acts) <==> AllProper(acts[1..]) by {
        assert acts == [acts[0]] + acts[1..];
      }
      if Harmless(w, acts[0]) {
        RunIntactExact(Act(w, acts[0]), Noted(w, origin, acts[0]), acts[1..]);
      }
    }
  }

  /** That is, after every prefix of the run. */
  lemma {:induction false} AlwaysIntactMeans(w: World, origin: Origin, acts: seq<Action>)
    ensures AlwaysIntact(w, origin, acts) <==>
            forall n :: 0 <= n <= |acts| ==> IntactAfter(w, origin, acts[..n])
    decreases acts
  {
    hide Intact, Act, Noted;
    if acts != [] {
      var v, noted, rest := Act(w, acts[0]), Noted(w, origin, acts[0]), acts[1..];
      AlwaysIntactMeans(v, noted, rest);
      assert acts[..0] == [];
      forall n | 0 < n <= |acts| ensures IntactAfter(w, origin, acts[..n]) <==> IntactAfter(v, noted, rest[..n - 1]) {
        assert acts[..n][0] == acts[0] && acts[..n][1..] == rest[..n - 1];
      }
      if forall n :: 0 <= n <= |acts| ==> IntactAfter(w, origin, acts[..n]) {
        forall n | 0 <= n <= |rest| ensures IntactAfter(v, noted, rest[..n]) {
          assert IntactAfter(w, origin, acts[..n + 1]);
        }
      }
      if forall n :: 0 <= n <= |rest| ==> IntactAfter(v, noted, rest[..n]) {
        forall n | 0 < n <= |acts| ensures IntactAfter(w, origin, acts[..n]) {
          assert IntactAfter(v, noted, rest[..n - 1]);
        }
      }
    } else {
      assert acts[..0] == [];
    }
  }

  ghost predicate IntactAfter(w: World, origin: Origin, acts: seq<Action>) {
    Intact(RunActs(w, acts), OriginAfter(w, origin, acts))
  }

  /** Over every run of harmless requests from empty tables, each photo still shows what was uploaded for it. */
  lemma FreshRunIntact(w: World, acts: seq<Action>, k: nat)
    requires Fresh(w.store) && HarmlessRun(w, acts) && k < |RunActs(w, acts).store.photos|
    ensures RowIntact(RunActs(w, acts), OriginAfter(w, map[], acts), k)
  {
    RunIntactExact(w, map[], acts);
    AlwaysIntactMeans(w, map[], acts);
    assert acts[..|acts|] == acts;
    assert IntactAfter(w, map[], acts);
  }

  lemma RunThree(w: World, a: Action, b: Action, c: Action)
    ensures RunActs(w, [a, b, c]) == Act(Act(Act(w, a), b), c)
  {
    hide Act;
    var acts := [a, b, c];
    assert acts[1..] == [b, c] && acts[1..][1..] == [c] && [c][1..] == [];
    assert RunActs(w, acts) == RunActs(Act(w, a), acts[1..]) == RunActs(Act(Act(w, a), b), [c]);
  }

  function SendOne(name: string, content: string): Action {
    Send(7, [Multipart.Saved(name, content)], "")
  }

  /** The store and the disk after a first upload of one file, and after a second under the same name. */
  lemma UploadTwice(name: string, first: string, second: string)
    requires name != ""
    ensures var w := World(Store([], map[7 := ""], 1), map[]);
            var x := Act(Act(w, SendOne(name, first)), SendOne(name, second));
            && RowsSound(x.store) && |x.store.photos| == 2
            && x.store.photos[0].id == 1 && x.store.photos[0].filename == x.store.photos[1].filename == name
  {
    hide Step, RowsSound, WriteAll;
    var one, two := [Multipart.Saved(name, first)], [Multipart.Saved(name, second)];
    var s := Store([], map[7 := ""], 1);
    SendRows(s, 7, one, "");
    StoreStays(s, 7, one);
    EmptySound(s);
    StepSound(s, Upload(7, Names(one), ""));
    var t := Step(s, Upload(7, Names(one), ""));
    SendRows(t, 7, two, "");
    StepSound(t, Upload(7, Names(two), ""));
  }

  lemma EmptySound(s: Store)
    requires s.photos == []
    ensures RowsSound(s)
  {
  }

  /** Two uploads under one name and a deletion of the first: the second photo has no file any more. */
  lemma FileLost(name: string, first: string, second: string)
    requires name != ""
    ensures var w := World(Store([], map[7 := ""], 1), map[]);
            var v := RunActs(w, [SendOne(name, first), SendOne(name, second), Remove(7, 1)]);
            |v.store.photos| == 1 && v.store.photos[0].filename == name && name !in v.disk
  {
    hide Step, RowsSound, WriteAll, RunActs, IndexOf;
    var one, two := SendOne(name, first), SendOne(name, second);
    var w := World(Store([], map[7 := ""], 1), map[]);
    RunThree(w, one, two, Remove(7, 1));
    UploadTwice(name, first, second);
    var x := Act(Act(w, one), two);
    RemoveRows(x.store, 7, 0);
  }

  /** An upload to an existing item leaves the item in place. */
  lemma StoreStays(s: Store, item: nat, saved: seq<Saved>)
    requires item in s.refs
    ensures item in Step(s, Upload(item, Names(saved), "")).refs
  {
    hide InsertAll, HasPrimary, MaxSort;
    InsertAllRows(s, item, Names(saved), "", !HasPrimary(s.photos, item), MaxSort(s.photos, item));
  }

  // ---- The handlers ----

  /** The two tables and the photo directory, updated in place by the three routes. */
  class Tables {
    var photos: seq<Photo>
    var refs: map<nat, string>
    var nextId: nat
    var disk: map<string, string>

    ghost function Contents(): World
      reads this
    {
      World(Store(photos, refs, nextId), disk)
    }

    constructor (items: set<nat>)
      ensures Fresh(Contents().store) && refs.Keys == items && disk == map[]
    {
      photos, refs, nextId, disk := [], map i | i in items :: "", 1, map[];
    }

    /** INSERT INTO item_photos; refused when the item does not exist. */
    method InsertRow(item: nat, file: string, caption: string, primary: bool, sort: int)
      modifies this`photos, this`nextId
      ensures photos == if item in refs
                        then old(photos) + [Photo(old(nextId), item, file, caption, primary, sort)] else old(photos)
      ensures nextId == old(nextId) + if item in refs then 1 else 0
    {
      if item in refs {
        photos := photos + [Photo(nextId, item, file, caption, primary, sort)];
        nextId := nextId + 1;
      }
    }

    /** UPDATE items SET photo_ref. */
    method SetReference(item: nat, file: string)
      modifies this`refs
      ensures refs == if item in old(refs) then old(refs)[item := file] else old(refs)
    {
      if item in refs {
        refs := refs[item := file];
      }
    }

    /** The upload route: the files are written one by one, then the rows are inserted. */
    method HandleUpload(item: nat, saved: seq<Saved>, caption: string) returns (ok: bool)
      modifies this
      ensures ok == (saved != [])
      ensures Contents() == Act(old(Contents()), Send(item, saved, caption))
    {
      hide InsertAll, HasPrimary, MaxSort, Insert;
      var needPrimary := !HasPrimary(photos, item);
      WriteFiles(saved);
      InsertAllNothing(Contents().store, item, caption, needPrimary, MaxSort(photos, item));
      if saved == [] {
        return false;
      }
      InsertRows(item, Names(saved), caption, needPrimary);
      ok := true;
    }

    method WriteFiles(saved: seq<Saved>)
      modifies this`disk
      ensures disk == WriteAll(old(disk), saved)
    {
      for i := 0 to |saved|
        invariant WriteAll(disk, saved[i..]) == WriteAll(old(disk), saved)
      {
        disk := disk[saved[i].filename := saved[i].content];
      }
    }

    method InsertRows(item: nat, files: seq<string>, caption: string, need: bool)
      modifies this`photos, this`refs, this`nextId
      ensures Contents().store ==
              InsertAll(old(Contents()).store, item, files, caption, need, MaxSort(old(photos), item))
    {
      var sort, needPrimary := MaxSort(photos, item), need;
      ghost var goal := InsertAll(Contents().store, item, files, caption, need, sort);
      for i := 0 to |files|
        invariant i > 0 ==> !needPrimary
        invariant InsertAll(Contents().store, item, files[i..], caption, needPrimary, sort) == goal
      {
        var primary := needPrimary && i == 0;
        sort := sort + 1;
        InsertRow(item, files[i], caption, primary, sort);
        if primary {
          SetReference(item, files[i]);
        }
        needPrimary := false;
      }
    }

    /** The update route. */
    method HandleUpdate(item: nat, photo: nat, newCaption: Option<string>, makePrimary: bool, newSort: Option<int>)
      modifies this`photos, this`refs
      ensures Contents() == Act(old(Contents()), Change(item, photo, newCaption, makePrimary, newSort))
    {
      hide IndexOf, ClearPrimary;
      if newCaption.Some? {
        var k := IndexOf(photos, photo);
        if k.Some? {
          photos := photos[k.value := photos[k.value].(caption := newCaption.value)];
        }
      }
      if makePrimary {
        photos := ClearPrimary(photos, item);
        var k := IndexOf(photos, photo);
        if k.Some? {
          photos := photos[k.value := photos[k.value].(primary := true)];
          SetReference(item, photos[k.value].filename);
        }
      }
      if newSort.Some? {
        var k := IndexOf(photos, photo);
        if k.Some? {
          photos := photos[k.value := photos[k.value].(sort := newSort.value)];
        }
      }
    }

    /** The delete route: the file goes first, by name, then the row. */
    method HandleDelete(item: nat, photo: nat)
      modifies this`photos, this`refs, this`disk
      ensures Contents() == Act(old(Contents()), Remove(item, photo))
    {
      var k := IndexOf(photos, photo);
      if k.Some? {
        disk := disk - {photos[k.value].filename};
        var wasPrimary := photos[k.value].primary;
        photos := photos[..k.value] + photos[k.value + 1..];
        if wasPrimary {
          var next := FirstOf(photos, item);
          if next.Some? {
            photos := photos[next.value := photos[next.value].(primary := true)];
            SetReference(item, photos[next.value].filename);
          } else {
            SetReference(item, "");
          }
        }
      }
    }
  }

  lemma InsertAllNothing(s: Store, item: nat, caption: string, need: bool, sort: int)
    ensures InsertAll(s, item, [], caption, need, sort) == s
  {
  }
}
