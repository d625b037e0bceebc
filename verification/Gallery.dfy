// The photo gallery of an item: what uploads, updates and deletions do to the
// item_photos table and the photo_ref column of items.

module Gallery {
  import opened Options

  /** A row of item_photos. */
  datatype Photo = Photo(id: nat, item: nat, filename: string, caption: string, primary: bool, sort: int)

  /** The photo rows in id order, photo_ref of every item, and the next row id. */
  datatype Store = Store(photos: seq<Photo>, refs: map<nat, string>, nextId: nat)

  datatype Request =
    | Upload(item: nat, files: seq<string>, caption: string)
    | Update(item: nat, photo: nat, newCaption: Option<string>, makePrimary: bool, newSort: Option<int>)
    | Delete(item: nat, photo: nat)

  // ---- Queries ----

  predicate HasPrimary(photos: seq<Photo>, item: nat) {
    exists i :: 0 <= i < |photos| && photos[i].item == item && photos[i].primary
  }

  predicate HasPhotos(photos: seq<Photo>, item: nat) {
    exists i :: 0 <= i < |photos| && photos[i].item == item
  }

  /** COALESCE(MAX(sort_order), 0) over the item's photos. */
  function MaxSort(photos: seq<Photo>, item: nat): (m: int)
    ensures forall p :: p in photos && p.item == item ==> p.sort <= m
  {
    if photos == [] then 0
    else
      var rest, p := photos[..|photos| - 1], photos[|photos| - 1];
      if p.item != item then MaxSort(rest, item)
      else if !HasPhotos(rest, item) || MaxSort(rest, item) < p.sort then p.sort else MaxSort(rest, item)
  }

  /** The row with an id. */
  function IndexOf(photos: seq<Photo>, id: nat): (r: Option<nat>)
    ensures r.Some? ==> r.value < |photos| && photos[r.value].id == id
    ensures r.None? ==> forall i :: 0 <= i < |photos| ==> photos[i].id != id
  {
    if photos == [] then None
    else if photos[|photos| - 1].id == id then Some(|photos| - 1)
    else IndexOf(photos[..|photos| - 1], id)
  }

  predicate Before(p: Photo, q: Photo) {
    p.sort < q.sort || (p.sort == q.sort && p.id <= q.id)
  }

  /** The item's first photo by sort order, then id. */
  function FirstOf(photos: seq<Photo>, item: nat): (r: Option<nat>)
    ensures r.None? <==> !HasPhotos(photos, item)
    ensures r.Some? ==> r.value < |photos| && photos[r.value].item == item
    ensures r.Some? ==> forall i :: 0 <= i < |photos| && photos[i].item == item ==> Before(photos[r.value], photos[i])
  {
    if photos == [] then None
    else
      var n := |photos| - 1;
      var rest := FirstOf(photos[..n], item);
      if photos[n].item == item && (rest.None? || !Before(photos[rest.value], photos[n])) then Some(n) else rest
  }

  // ---- What each request does ----

  function Insert(s: Store, item: nat, file: string, caption: string, primary: bool, sort: int): Store {
    if item !in s.refs then s
    else Store(s.photos + [Photo(s.nextId, item, file, caption, primary, sort)],
               if primary then s.refs[item := file] else s.refs, s.nextId + 1)
  }

  function InsertAll(s: Store, item: nat, files: seq<string>, caption: string, need: bool, sort: int): Store
    decreases files
  {
    if files == [] then s
    else InsertAll(Insert(s, item, files[0], caption, need, sort + 1), item, files[1..], caption, false, sort + 1)
  }

  function ClearPrimary(photos: seq<Photo>, item: nat): (r: seq<Photo>)
    ensures |r| == |photos|
  {
    seq(|photos|, i requires 0 <= i < |photos| =>
      if photos[i].item == item then photos[i].(primary := false) else photos[i])
  }

  function MakePrimary(s: Store, item: nat, photo: nat): Store {
    var cleared := ClearPrimary(s.photos, item);
    match IndexOf(cleared, photo)
    case None => s.(photos := cleared)
    case Some(k) =>
      Store(cleared[k := cleared[k].(primary := true)],
            if item in s.refs then s.refs[item := cleared[k].filename] else s.refs, s.nextId)
  }

  function SetCaption(s: Store, photo: nat, caption: string): Store {
    match IndexOf(s.photos, photo)
    case None => s
    case Some(k) => s.(photos := s.photos[k := s.photos[k].(caption := caption)])
  }

  function SetSort(s: Store, photo: nat, sort: int): Store {
    match IndexOf(s.photos, photo)
    case None => s
    case Some(k) => s.(photos := s.photos[k := s.photos[k].(sort := sort)])
  }

  function DeleteRow(s: Store, photo: nat): Store {
    match IndexOf(s.photos, photo)
    case None => s
    case Some(k) => s.(photos := s.photos[..k] + s.photos[k + 1..])
  }

  /** The first photo left becomes the primary; without one the reference is blanked. */
  function Promote(s: Store, item: nat): Store {
    match FirstOf(s.photos, item)
    case None => if item in s.refs then s.(refs := s.refs[item := ""]) else s
    case Some(k) =>
      Store(s.photos[k := s.photos[k].(primary := true)],
            if item in s.refs then s.refs[item := s.photos[k].filename] else s.refs, s.nextId)
  }

  function Step(s: Store, r: Request): Store {
    match r
    case Upload(item, files, caption) =>
      InsertAll(s, item, files, caption, !HasPrimary(s.photos, item), MaxSort(s.photos, item))
    case Update(item, photo, newCaption, makePrimary, newSort) =>
      var a := if newCaption.Some? then SetCaption(s, photo, newCaption.value) else s;
      var b := if makePrimary then MakePrimary(a, item, photo) else a;
      if newSort.Some? then SetSort(b, photo, newSort.value) else b
    case Delete(item, photo) =>
      match IndexOf(s.photos, photo)
      case None => s
      case Some(k) =>
        if s.photos[k].primary then Promote(DeleteRow(s, photo), item) else DeleteRow(s, photo)
  }

  // ---- The invariant ----

  /** Photo `k` is the item's primary, the only one, and the one photo_ref names. */
  predicate SolePrimary(s: Store, item: nat, k: nat)
    requires item in s.refs
  {
    && k < |s.photos| && s.photos[k].item == item && s.photos[k].primary
    && s.refs[item] == s.photos[k].filename
    && forall j :: 0 <= j < |s.photos| && s.photos[j].item == item && s.photos[j].primary ==> j == k
  }

  ghost predicate ItemConsistent(s: Store, item: nat)
    requires item in s.refs
  {
    if HasPhotos(s.photos, item) then exists k: nat :: SolePrimary(s, item, k) else s.refs[item] == ""
  }

  /** Row ids are unique, every photo has an item and a file name. */
  ghost predicate RowsSound(s: Store) {
    && (forall i, j :: 0 <= i < j < |s.photos| ==> s.photos[i].id < s.photos[j].id)
    && (forall i :: 0 <= i < |s.photos| ==>
          s.photos[i].id < s.nextId && s.photos[i].item in s.refs && s.photos[i].filename != "")
  }

  ghost predicate Consistent(s: Store) {
    RowsSound(s) && forall item :: item in s.refs ==> ItemConsistent(s, item)
  }

  /** Uploads carry real file names. */
  predicate WellFormed(r: Request) {
    r.Upload? ==> forall i :: 0 <= i < |r.files| ==> r.files[i] != ""
  }

  /** The row with the id exists and belongs to another item. */
  predicate Foreign(s: Store, item: nat, photo: nat) {
    exists k :: 0 <= k < |s.photos| && s.photos[k].id == photo && s.photos[k].item != item
  }

  predicate Missing(s: Store, photo: nat) {
    IndexOf(s.photos, photo) == None
  }

  predicate PrimaryRow(s: Store, photo: nat) {
    exists k :: 0 <= k < |s.photos| && s.photos[k].id == photo && s.photos[k].primary
  }

  /** What can be checked before the request: mostly, that the photo is one of the item's own. */
  predicate Safe(s: Store, r: Request) {
    match r
    case Upload(_, _, _) => true
    case Update(item, photo, _, makePrimary, _) =>
      makePrimary ==>
        && (Missing(s, photo) ==> !HasPhotos(s.photos, item))
        && (Foreign(s, item, photo) ==> item !in s.refs && PrimaryRow(s, photo))
    case Delete(item, photo) => Foreign(s, item, photo) ==> !PrimaryRow(s, photo)
  }

  // ---- Single steps keep the invariant ----

  lemma UniqueIndex(s: Store, k: nat)
    requires RowsSound(s) && k < |s.photos|
    ensures IndexOf(s.photos, s.photos[k].id) == Some(k)
  {
  }

  lemma InsertKeeps(s: Store, item: nat, file: string, caption: string, primary: bool, sort: int)
    requires Consistent(s) && file != ""
    requires item in s.refs ==> primary == !HasPhotos(s.photos, item)
    ensures var t := Insert(s, item, file, caption, primary, sort);
            Consistent(t) && (item in s.refs ==> HasPhotos(t.photos, item))
  {
    var t := Insert(s, item, file, caption, primary, sort);
    if item in s.refs {
      var n := |s.photos|;
      assert t.photos[n].item == item;
      assert RowsSound(t);
      forall other | other in t.refs ensures ItemConsistent(t, other) {
        if other == item && primary {
          assert SolePrimary(t, item, n);
        } else if HasPhotos(s.photos, other) {
          var k: nat :| SolePrimary(s, other, k);
          assert t.photos[k] == s.photos[k];
          assert SolePrimary(t, other, k);
        } else {
          assert other != item;
          assert !HasPhotos(t.photos, other);
        }
      }
    }
  }

  lemma {:induction false} InsertAllKeeps(s: Store, item: nat, files: seq<string>, caption: string, need: bool,
                                          sort: int)
    requires Consistent(s) && forall i :: 0 <= i < |files| ==> files[i] != ""
    requires item in s.refs ==> need == !HasPhotos(s.photos, item)
    ensures Consistent(InsertAll(s, item, files, caption, need, sort))
    decreases files
  {
    if files != [] {
      InsertKeeps(s, item, files[0], caption, need, sort + 1);
      InsertAllKeeps(Insert(s, item, files[0], caption, need, sort + 1), item, files[1..], caption, false, sort + 1);
    }
  }

  /** In a consistent store an item has a primary exactly when it has photos. */
  lemma PrimaryIffPhotos(s: Store, item: nat)
    requires Consistent(s) && item in s.refs
    ensures HasPrimary(s.photos, item) == HasPhotos(s.photos, item)
  {
    assert ItemConsistent(s, item);
    if HasPhotos(s.photos, item) {
      var k: nat :| SolePrimary(s, item, k);
    }
  }

  /** Captions and sort orders have no part in the invariant. */
  predicate SameButText(s: Store, t: Store) {
    && |t.photos| == |s.photos| && t.refs == s.refs && t.nextId == s.nextId
    && forall i :: 0 <= i < |s.photos| ==>
         && t.photos[i].id == s.photos[i].id && t.photos[i].item == s.photos[i].item
         && t.photos[i].filename == s.photos[i].filename && t.photos[i].primary == s.photos[i].primary
  }

  lemma SameButTextHalf(s: Store, t: Store, item: nat)
    requires SameButText(s, t) && item in s.refs && ItemConsistent(s, item)
    ensures ItemConsistent(t, item)
  {
    if HasPhotos(t.photos, item) {
      var i :| 0 <= i < |t.photos| && t.photos[i].item == item;
      assert s.photos[i].item == item;
      var k: nat :| SolePrimary(s, item, k);
      assert SolePrimary(t, item, k);
    }
  }

  lemma SameButTextKeeps(s: Store, t: Store)
    requires SameButText(s, t)
    ensures Consistent(s) <==> Consistent(t)
  {
    if Consistent(s) {
      forall item | item in t.refs ensures ItemConsistent(t, item) {
        SameButTextHalf(s, t, item);
      }
    }
    if Consistent(t) {
      forall item | item in s.refs ensures ItemConsistent(s, item) {
        SameButTextHalf(t, s, item);
      }
    }
  }

  /** An item whose own rows and reference are as before is as consistent as before. */
  lemma OthersKeep(s: Store, t: Store, other: nat)
    requires other in s.refs && other in t.refs && s.refs[other] == t.refs[other]
    requires |s.photos| == |t.photos|
    requires forall i :: 0 <= i < |s.photos| ==>
               s.photos[i].item == t.photos[i].item && (s.photos[i].item == other ==> s.photos[i] == t.photos[i])
    requires ItemConsistent(s, other)
    ensures ItemConsistent(t, other)
  {
    if HasPhotos(t.photos, other) {
      var i :| 0 <= i < |t.photos| && t.photos[i].item == other;
      assert s.photos[i].item == other;
      var k: nat :| SolePrimary(s, other, k);
      assert SolePrimary(t, other, k);
    }
  }

  /** Rows keep their ids, items and file names. */
  lemma SameRowsSound(s: Store, t: Store)
    requires RowsSound(s) && |t.photos| == |s.photos| && t.refs.Keys == s.refs.Keys && t.nextId == s.nextId
    requires forall i :: 0 <= i < |s.photos| ==>
               t.photos[i].id == s.photos[i].id && t.photos[i].item == s.photos[i].item
               && t.photos[i].filename == s.photos[i].filename
    ensures RowsSound(t)
  {
  }

  /** What making a photo primary leaves: its own flag and reference, the item's other flags cleared. */
  lemma MakePrimaryRows(s: Store, item: nat, k: nat)
    requires RowsSound(s) && k < |s.photos|
    ensures var t := MakePrimary(s, item, s.photos[k].id);
            && RowsSound(t) && |t.photos| == |s.photos| && t.photos[k] == s.photos[k].(primary := true)
            && t.refs == (if item in s.refs then s.refs[item := s.photos[k].filename] else s.refs)
            && t.nextId == s.nextId
            && (forall i :: 0 <= i < |s.photos| && i != k ==>
                  t.photos[i] == if s.photos[i].item == item then s.photos[i].(primary := false) else s.photos[i])
  {
    hide RowsSound;
    var cleared := Store(ClearPrimary(s.photos, item), s.refs, s.nextId);
    SameRowsSound(s, cleared);
    UniqueIndex(cleared, k);
    SameRowsSound(s, MakePrimary(s, item, s.photos[k].id));
  }

  /** Making one of the item's own photos primary. */
  lemma MakePrimaryKeeps(s: Store, item: nat, k: nat)
    requires Consistent(s) && k < |s.photos| && s.photos[k].item == item
    ensures Consistent(MakePrimary(s, item, s.photos[k].id))
  {
    hide MakePrimary, IndexOf;
    var t := MakePrimary(s, item, s.photos[k].id);
    MakePrimaryRows(s, item, k);
    forall other | other in t.refs ensures ItemConsistent(t, other) {
      if other == item {
        assert SolePrimary(t, item, k);
      } else {
        OthersKeep(s, t, other);
      }
    }
  }

  /** A photo of another item: consistency survives only if nothing changes. */
  lemma MakePrimaryForeign(s: Store, item: nat, k: nat)
    requires Consistent(s) && k < |s.photos| && s.photos[k].item != item
    ensures Consistent(MakePrimary(s, item, s.photos[k].id)) <==> item !in s.refs && s.photos[k].primary
  {
    hide MakePrimary, IndexOf;
    var t := MakePrimary(s, item, s.photos[k].id);
    MakePrimaryRows(s, item, k);
    if item in s.refs {
      assert !ItemConsistent(t, item);
    } else if s.photos[k].primary {
      assert t.photos == s.photos;
      assert t == s;
    } else {
      var home := s.photos[k].item;
      assert HasPhotos(s.photos, home) && ItemConsistent(s, home);
      var m: nat :| SolePrimary(s, home, m);
      assert t.photos[m].primary && t.photos[k].primary && t.photos[m].item == t.photos[k].item == home;
      assert !ItemConsistent(t, home);
    }
  }

  lemma ClearedMissing(s: Store, item: nat, photo: nat)
    requires Missing(s, photo)
    ensures MakePrimary(s, item, photo) == s.(photos := ClearPrimary(s.photos, item))
  {
  }

  /** No such photo: the item's flags are cleared and nothing is set. */
  lemma MakePrimaryMissing(s: Store, item: nat, photo: nat)
    requires Consistent(s) && Missing(s, photo)
    ensures Consistent(MakePrimary(s, item, photo)) <==> !HasPhotos(s.photos, item)
  {
    hide MakePrimary, IndexOf, RowsSound;
    ClearedMissing(s, item, photo);
    var t := MakePrimary(s, item, photo);
    if HasPhotos(s.photos, item) {
      var i :| 0 <= i < |s.photos| && s.photos[i].item == item;
      PhotoHasItem(s, i);
      assert t.photos[i].item == item;
      assert !ItemConsistent(t, item);
    } else {
      assert t.photos == s.photos;
      assert t == s;
    }
  }

  lemma PhotoHasItem(s: Store, i: nat)
    requires RowsSound(s) && i < |s.photos|
    ensures s.photos[i].item in s.refs
  {
  }

  /** The row at `k` taken out. */
  function Without(s: Store, k: nat): Store
    requires k < |s.photos|
  {
    s.(photos := s.photos[..k] + s.photos[k + 1..])
  }

  /** Taking out a row leaves the items it was not the primary of as they were. */
  lemma WithoutKeeps(s: Store, k: nat, other: nat)
    requires k < |s.photos| && other in s.refs && ItemConsistent(s, other)
    requires s.photos[k].item != other || !s.photos[k].primary
    ensures ItemConsistent(Without(s, k), other)
  {
    var t := Without(s, k);
    if HasPhotos(s.photos, other) {
      var m: nat :| SolePrimary(s, other, m);
      var n := if m < k then m else m - 1;
      assert t.photos[n] == s.photos[m];
      assert SolePrimary(t, other, n);
    } else {
      assert !HasPhotos(t.photos, other);
    }
  }

  lemma WithoutSound(s: Store, k: nat)
    requires RowsSound(s) && k < |s.photos|
    ensures RowsSound(Without(s, k))
  {
    var t := Without(s, k);
    forall i | 0 <= i < |t.photos| ensures t.photos[i] == s.photos[if i < k then i else i + 1] {
    }
  }

  /** After its primary is gone, no row of the item is primary. */
  lemma WithoutPrimary(s: Store, k: nat)
    requires Consistent(s) && k < |s.photos| && s.photos[k].primary
    ensures !HasPrimary(Without(s, k).photos, s.photos[k].item)
    ensures s.refs[s.photos[k].item] == s.photos[k].filename
  {
    var item, t := s.photos[k].item, Without(s, k);
    assert HasPhotos(s.photos, item) && ItemConsistent(s, item);
    var m: nat :| SolePrimary(s, item, m);
    forall i | 0 <= i < |t.photos| && t.photos[i].item == item ensures !t.photos[i].primary {
      assert t.photos[i] == s.photos[if i < k then i else i + 1];
    }
  }

  /** Promotion makes an item without a primary consistent and leaves every other as it was. */
  lemma PromoteKeeps(s: Store, item: nat)
    requires RowsSound(s) && !HasPrimary(s.photos, item)
    requires forall other :: other in s.refs && other != item ==> ItemConsistent(s, other)
    ensures Consistent(Promote(s, item))
  {
    hide FirstOf;
    var t := Promote(s, item);
    var first := FirstOf(s.photos, item);
    assert RowsSound(t);
    forall other | other in t.refs ensures ItemConsistent(t, other) {
      if other != item {
        OthersKeep(s, t, other);
      } else if first.Some? {
        assert SolePrimary(t, item, first.value);
      }
    }
  }

  /** Promotion for one item does not help another that has lost its primary. */
  lemma PromoteElsewhere(s: Store, item: nat, home: nat)
    requires home != item && home in s.refs && s.refs[home] != "" && !HasPrimary(s.photos, home)
    ensures !Consistent(Promote(s, item))
  {
    hide FirstOf;
    var t := Promote(s, item);
    assert t.refs[home] == s.refs[home];
    forall i | 0 <= i < |t.photos| && t.photos[i].item == home ensures !t.photos[i].primary {
      assert t.photos[i] == s.photos[i];
    }
    assert !ItemConsistent(t, home);
  }

  lemma WithoutOthers(s: Store, k: nat)
    requires Consistent(s) && k < |s.photos|
    ensures RowsSound(Without(s, k))
    ensures forall other :: other in s.refs && (other != s.photos[k].item || !s.photos[k].primary) ==>
              ItemConsistent(Without(s, k), other)
  {
    WithoutSound(s, k);
    forall other | other in s.refs && (other != s.photos[k].item || !s.photos[k].primary)
      ensures ItemConsistent(Without(s, k), other)
    {
      WithoutKeeps(s, k, other);
    }
  }

  lemma DeleteRowExact(s: Store, item: nat, k: nat)
    requires Consistent(s) && k < |s.photos|
    ensures var t := if s.photos[k].primary then Promote(Without(s, k), item) else Without(s, k);
            Consistent(t) <==> !s.photos[k].primary || s.photos[k].item == item
  {
    hide Promote, ItemConsistent;
    WithoutOthers(s, k);
    if s.photos[k].primary {
      WithoutPrimary(s, k);
      if s.photos[k].item == item {
        PromoteKeeps(Without(s, k), item);
      } else {
        PromoteElsewhere(Without(s, k), item, s.photos[k].item);
      }
    }
  }

  lemma DeleteExact(s: Store, item: nat, photo: nat)
    requires Consistent(s)
    ensures Consistent(Step(s, Delete(item, photo))) <==> Safe(s, Delete(item, photo))
  {
    hide Promote, Consistent;
    if k: nat :| k < |s.photos| && s.photos[k].id == photo {
      OnlyRow(s, item, k);
      DeleteRowExact(s, item, k);
    }
  }

  /** With unique ids, what holds of some row with an id holds of the one row with that id. */
  lemma OnlyRow(s: Store, item: nat, k: nat)
    requires Consistent(s) && k < |s.photos|
    ensures IndexOf(s.photos, s.photos[k].id) == Some(k)
    ensures Foreign(s, item, s.photos[k].id) <==> s.photos[k].item != item
    ensures PrimaryRow(s, s.photos[k].id) <==> s.photos[k].primary
  {
    hide IndexOf, ItemConsistent;
    UniqueIndex(s, k);
    forall j | 0 <= j < |s.photos| && s.photos[j].id == s.photos[k].id ensures j == k {
    }
  }

  lemma SetCaptionSame(s: Store, photo: nat, caption: string)
    ensures SameButText(s, SetCaption(s, photo, caption))
  {
  }

  lemma SetSortSame(s: Store, photo: nat, sort: int)
    ensures SameButText(s, SetSort(s, photo, sort))
  {
  }

  lemma SafeIgnoresText(s: Store, t: Store, item: nat, photo: nat)
    requires SameButText(s, t)
    ensures Missing(s, photo) == Missing(t, photo)
    ensures HasPhotos(s.photos, item) == HasPhotos(t.photos, item)
    ensures Foreign(s, item, photo) == Foreign(t, item, photo)
    ensures PrimaryRow(s, photo) == PrimaryRow(t, photo)
  {
    hide IndexOf;
    assert forall i :: 0 <= i < |s.photos| ==> s.photos[i].id == t.photos[i].id;
  }

  lemma MakePrimaryExact(s: Store, item: nat, photo: nat)
    requires Consistent(s)
    ensures Consistent(MakePrimary(s, item, photo)) <==>
            && (Missing(s, photo) ==> !HasPhotos(s.photos, item))
            && (Foreign(s, item, photo) ==> item !in s.refs && PrimaryRow(s, photo))
  {
    hide MakePrimary, Consistent, Foreign, PrimaryRow;
    if k: nat :| k < |s.photos| && s.photos[k].id == photo {
      OnlyRow(s, item, k);
      if s.photos[k].item == item {
        MakePrimaryKeeps(s, item, k);
      } else {
        MakePrimaryForeign(s, item, k);
      }
    } else {
      MakePrimaryMissing(s, item, photo);
      NoRow(s, item, photo);
    }
  }

  lemma NoRow(s: Store, item: nat, photo: nat)
    requires Missing(s, photo)
    ensures !Foreign(s, item, photo)
  {
  }

  /** A request keeps the gallery consistent exactly when it was safe to make. */
  lemma StepExact(s: Store, r: Request)
    requires Consistent(s) && WellFormed(r)
    ensures Consistent(Step(s, r)) <==> Safe(s, r)
  {
    hide Consistent, MakePrimary, SetCaption, SetSort, Missing, Foreign, PrimaryRow, HasPhotos, HasPrimary;
    match r
    case Upload(item, files, caption) =>
      UploadKeeps(s, item, files, caption);
    case Update(item, photo, newCaption, makePrimary, newSort) =>
      var a := if newCaption.Some? then SetCaption(s, photo, newCaption.value) else s;
      if newCaption.Some? {
        SetCaptionSame(s, photo, newCaption.value);
      }
      SameButTextKeeps(s, a);
      SafeIgnoresText(s, a, item, photo);
      var b := if makePrimary then MakePrimary(a, item, photo) else a;
      if makePrimary {
        MakePrimaryExact(a, item, photo);
      }
      if newSort.Some? {
        SetSortSame(b, photo, newSort.value);
        SameButTextKeeps(b, SetSort(b, photo, newSort.value));
      }
    case Delete(item, photo) =>
      DeleteExact(s, item, photo);
  }

  lemma UploadKeeps(s: Store, item: nat, files: seq<string>, caption: string)
    requires Consistent(s) && WellFormed(Upload(item, files, caption))
    ensures Consistent(Step(s, Upload(item, files, caption)))
  {
    if item in s.refs {
      PrimaryIffPhotos(s, item);
    }
    InsertAllKeeps(s, item, files, caption, !HasPrimary(s.photos, item), MaxSort(s.photos, item));
  }

  // ---- What the requests do to the rows themselves ----

  /** Row `m` of the store after an upload, for the rows it adds. */
  function UploadedRow(s: Store, item: nat, files: seq<string>, caption: string, need: bool, sort: int, m: nat): Photo
    requires |s.photos| <= m < |s.photos| + |files|
  {
    var i := m - |s.photos|;
    Photo(s.nextId + i, item, files[i], caption, need && i == 0, sort + 1 + i)
  }

  /** An upload adds its files as rows in order, and touches nothing but photo_ref besides. */
  lemma {:induction false} InsertAllRows(s: Store, item: nat, files: seq<string>, caption: string, need: bool,
                                         sort: int)
    requires item in s.refs
    ensures var t := InsertAll(s, item, files, caption, need, sort);
            && |t.photos| == |s.photos| + |files|
            && (forall m :: 0 <= m < |s.photos| ==> t.photos[m] == s.photos[m])
            && (forall m :: |s.photos| <= m < |t.photos| ==>
                  t.photos[m] == UploadedRow(s, item, files, caption, need, sort, m))
            && t.refs == if need && files != [] then s.refs[item := files[0]] else s.refs
    decreases files
  {
    if files != [] {
      var next := Insert(s, item, files[0], caption, need, sort + 1);
      InsertAllRows(next, item, files[1..], caption, false, sort + 1);
    }
  }

  /** Uploaded photos come after every photo the item had, in the order of the upload. */
  lemma UploadOrder(s: Store, item: nat, files: seq<string>, caption: string, i: nat, j: nat)
    requires RowsSound(s) && item in s.refs && i < j && |s.photos| <= j < |s.photos| + |files|
    ensures var t := Step(s, Upload(item, files, caption));
            && |t.photos| == |s.photos| + |files|
            && t.photos[j].item == item && t.photos[j].filename == files[j - |s.photos|]
            && (t.photos[i].item == item ==> t.photos[i].sort < t.photos[j].sort)
  {
    hide InsertAll, MaxSort, HasPrimary, RowsSound;
    InsertAllRows(s, item, files, caption, !HasPrimary(s.photos, item), MaxSort(s.photos, item));
    assert i < |s.photos| ==> s.photos[i] in s.photos;
  }

  /** The greatest sort order among an item's photos, and 0 without photos. */
  ghost predicate GreatestSort(photos: seq<Photo>, item: nat, m: int) {
    if forall i :: 0 <= i < |photos| ==> photos[i].item != item then m == 0
    else
      && (forall i :: 0 <= i < |photos| && photos[i].item == item ==> photos[i].sort <= m)
      && exists i :: 0 <= i < |photos| && photos[i].item == item && photos[i].sort == m
  }

  lemma {:induction false} MaxSortIs(photos: seq<Photo>, item: nat)
    ensures GreatestSort(photos, item, MaxSort(photos, item))
    decreases photos
  {
    if photos != [] {
      var n := |photos| - 1;
      var rest := photos[..n];
      MaxSortIs(rest, item);
      assert forall i :: 0 <= i < n ==> photos[i] == rest[i];
      if photos[n].item == item {
        assert photos[n].item == item;
        if HasPhotos(rest, item) && MaxSort(rest, item) >= photos[n].sort {
          var i :| 0 <= i < n && rest[i].item == item && rest[i].sort == MaxSort(rest, item);
          assert photos[i].item == item && photos[i].sort == MaxSort(rest, item);
        }
      } else if HasPhotos(rest, item) {
        var i :| 0 <= i < n && rest[i].item == item && rest[i].sort == MaxSort(rest, item);
        assert photos[i].item == item && photos[i].sort == MaxSort(rest, item);
      }
    }
  }

  /**
   * An upload to an item keeps every row and adds one for each file: new ids and sort orders count on
   * from the last, and the first file becomes the primary, with the reference, if the item had none.
   */
  lemma UploadRows(s: Store, item: nat, files: seq<string>, caption: string, m: int)
    requires item in s.refs && GreatestSort(s.photos, item, m)
    ensures var t, n := Step(s, Upload(item, files, caption)), |s.photos|;
            var bare := forall i :: 0 <= i < n ==> s.photos[i].item == item ==> !s.photos[i].primary;
            && |t.photos| == n + |files| && t.photos[..n] == s.photos
            && (forall i :: 0 <= i < |files| ==>
                  t.photos[n + i] ==
                  Photo(s.nextId + i, item, files[i], caption, bare && i == 0, m + 1 + i))
            && t.refs == if bare && files != [] then s.refs[item := files[0]] else s.refs
  {
    hide InsertAll, MaxSort, GreatestSort;
    MaxSortIs(s.photos, item);
    OneGreatest(s.photos, item, m, MaxSort(s.photos, item));
    InsertAllRows(s, item, files, caption, !HasPrimary(s.photos, item), m);
  }

  lemma OneGreatest(photos: seq<Photo>, item: nat, m: int, n: int)
    requires GreatestSort(photos, item, m) && GreatestSort(photos, item, n)
    ensures m == n
  {
  }

  /** Deleting a photo that is no primary takes its row and touches nothing else. */
  lemma DeletePlain(s: Store, item: nat, k: nat)
    requires RowsSound(s) && k < |s.photos| && !s.photos[k].primary
    ensures Step(s, Delete(item, s.photos[k].id)) == Without(s, k)
  {
    UniqueIndex(s, k);
  }

  /**
   * Deleting a primary takes its row, and of the item's remaining rows the one with the least sort order,
   * and the least id among those, becomes the primary that the reference names; nothing else changes.
   * Without such a row the reference is blanked.
   */
  lemma DeletePromotes(s: Store, item: nat, k: nat)
    requires RowsSound(s) && k < |s.photos| && s.photos[k].primary
    ensures var rest, t := Without(s, k).photos, Step(s, Delete(item, s.photos[k].id));
            && t.nextId == s.nextId
            && if forall i :: 0 <= i < |rest| ==> rest[i].item != item
               then t.photos == rest && t.refs == (if item in s.refs then s.refs[item := ""] else s.refs)
               else exists j :: 0 <= j < |rest| && rest[j].item == item
                      && (forall i :: 0 <= i < |rest| && rest[i].item == item ==>
                            rest[j].sort < rest[i].sort || (rest[j].sort == rest[i].sort && rest[j].id <= rest[i].id))
                      && t.photos == rest[j := rest[j].(primary := true)]
                      && t.refs == (if item in s.refs then s.refs[item := rest[j].filename] else s.refs)
  {
    hide FirstOf;
    UniqueIndex(s, k);
    var rest := Without(s, k).photos;
    assert DeleteRow(s, s.photos[k].id).photos == rest;
    var first := FirstOf(rest, item);
    if first.Some? {
      assert rest[first.value].item == item;
    }
  }

  /** An update of an item's own photo changes that row as asked, and of others only the item's primary flags. */
  lemma UpdateRows(s: Store, k: nat, newCaption: Option<string>, makePrimary: bool, newSort: Option<int>)
    requires RowsSound(s) && k < |s.photos|
    ensures var p := s.photos[k];
            var t := Step(s, Update(p.item, p.id, newCaption, makePrimary, newSort));
            && |t.photos| == |s.photos|
            && t.photos[k] == Photo(p.id, p.item, p.filename, if newCaption.Some? then newCaption.value else p.caption,
                                    makePrimary || p.primary, if newSort.Some? then newSort.value else p.sort)
            && t.refs == (if makePrimary && p.item in s.refs then s.refs[p.item := p.filename] else s.refs)
            && t.nextId == s.nextId
            && forall i :: 0 <= i < |s.photos| && i != k ==>
                 t.photos[i] == if makePrimary && s.photos[i].item == p.item then s.photos[i].(primary := false)
                                else s.photos[i]
  {
    hide MakePrimary, IndexOf;
    var p := s.photos[k];
    UniqueIndex(s, k);
    var a := if newCaption.Some? then SetCaption(s, p.id, newCaption.value) else s;
    SameRowsSound(s, a);
    UniqueIndex(a, k);
    MakePrimaryRows(a, p.item, k);
    var b := if makePrimary then MakePrimary(a, p.item, p.id) else a;
    UniqueIndex(b, k);
  }

  // ---- Whole runs ----

  function Run(s: Store, rs: seq<Request>): Store
    decreases rs
  {
    if rs == [] then s else Run(Step(s, rs[0]), rs[1..])
  }

  /** Every request of the run is safe in the store it meets. */
  predicate SafeRun(s: Store, rs: seq<Request>)
    decreases rs
  {
    rs == [] || (WellFormed(rs[0]) && Safe(s, rs[0]) && SafeRun(Step(s, rs[0]), rs[1..]))
  }

  /** No photos yet, and every reference blank. */
  predicate Fresh(s: Store) {
    s.photos == [] && forall item :: item in s.refs ==> s.refs[item] == ""
  }

  /** The store is consistent before the run and after each of its requests. */
  ghost predicate AlwaysConsistent(s: Store, rs: seq<Request>)
    decreases rs
  {
    Consistent(s) && (rs == [] || AlwaysConsistent(Step(s, rs[0]), rs[1..]))
  }

  predicate AllWellFormed(rs: seq<Request>) {
    forall i :: 0 <= i < |rs| ==> WellFormed(rs[i])
  }

  /** A run is safe exactly when its requests are well-formed and keep the gallery consistent all the way. */
  lemma {:induction false} RunExact(s: Store, rs: seq<Request>)
    requires Consistent(s)
    ensures SafeRun(s, rs) <==> AllWellFormed(rs) && AlwaysConsistent(s, rs)
    decreases rs
  {
    hide Consistent, Safe, Step, WellFormed;
    if rs != [] && WellFormed(rs[0]) {
      StepExact(s, rs[0]);
      assert AllWellFormed(rs) <==> AllWellFormed(rs[1..]) by {
        assert rs == [rs[0]] + rs[1..];
      }
      if Safe(s, rs[0]) {
        RunExact(Step(s, rs[0]), rs[1..]);
      }
    }
  }

  /** That is, after every prefix of the run. */
  lemma {:induction false} AlwaysMeans(s: Store, rs: seq<Request>)
    ensures AlwaysConsistent(s, rs) <==> forall n :: 0 <= n <= |rs| ==> Consistent(Run(s, rs[..n]))
    decreases rs
  {
    hide Consistent, Step;
    if rs != [] {
      var t, rest := Step(s, rs[0]), rs[1..];
      AlwaysMeans(t, rest);
      assert Run(s, rs[..0]) == s;
      forall n | 0 < n <= |rs| ensures Run(s, rs[..n]) == Run(t, rest[..n - 1]) {
        assert rs[..n][0] == rs[0] && rs[..n][1..] == rest[..n - 1];
      }
      if forall n :: 0 <= n <= |rs| ==> Consistent(Run(s, rs[..n])) {
        forall n | 0 <= n <= |rest| ensures Consistent(Run(t, rest[..n])) {
          assert Consistent(Run(s, rs[..n + 1]));
        }
      }
      if forall n :: 0 <= n <= |rest| ==> Consistent(Run(t, rest[..n])) {
        forall n | 0 < n <= |rs| ensures Consistent(Run(s, rs[..n])) {
          assert Consistent(Run(t, rest[..n - 1]));
        }
      }
    } else {
      assert rs[..0] == [];
    }
  }

  /** From a fresh store, every safe run leaves each item with one primary, or no photos and no reference. */
  lemma FreshRun(s: Store, rs: seq<Request>, item: nat)
    requires Fresh(s) && SafeRun(s, rs)
    ensures var t := Run(s, rs);
            item in t.refs ==>
              if HasPhotos(t.photos, item) then exists k: nat :: SolePrimary(t, item, k) else t.refs[item] == ""
  {
    assert forall i :: i in s.refs ==> ItemConsistent(s, i);
    assert Consistent(s);
    RunExact(s, rs);
    AlwaysMeans(s, rs);
    assert rs[..|rs|] == rs;
    if item in Run(s, rs).refs {
      assert ItemConsistent(Run(s, rs), item);
    }
  }

  /** Asking for a primary that does not exist costs an item with a photo its primary. */
  lemma LostPrimary()
    ensures var s := Store([Photo(1, 7, "item7_p1.jpg", "", true, 1)], map[7 := "item7_p1.jpg"], 2);
            Consistent(s) && !Consistent(Step(s, Update(7, 99, None, true, None)))
  {
    var s := Store([Photo(1, 7, "item7_p1.jpg", "", true, 1)], map[7 := "item7_p1.jpg"], 2);
    assert SolePrimary(s, 7, 0);
    assert s.photos[0].item == 7;
    MakePrimaryMissing(s, 7, 99);
  }
}
