// What uploaded forms do to the photo directory: which forms are harmless to the
// photos that are there already.

module PhotoForms {
  import opened Gallery
  import opened MultipartRoundTrip
  import opened Options
  import opened PhotoDirectory
  import opened Text
  import Multipart

  /** The files an upload of a form writes. */
  function FilesOf(parts: seq<FormPart>, item: string, caption: string, opens: string -> bool): seq<Saved> {
    Receive(Multipart.Upload([], caption), parts, item, 1, opens).files
  }

  lemma {:induction false} LastOfDistinct(files: seq<Saved>, i: nat)
    requires NamesDistinct(files) && i < |files|
    ensures LastWritten(files, files[i].filename) == Some(files[i].content)
    decreases files
  {
    if i < |files| - 1 {
      LastOfDistinct(files[..|files| - 1], i);
    }
  }

  lemma {:induction false} LastIsMember(files: seq<Saved>, name: string)
    ensures match LastWritten(files, name)
            case None => forall f :: f in files ==> f.filename != name
            case Some(content) => exists f :: f in files && f.filename == name && f.content == content
    decreases files
  {
    if files != [] {
      var n := |files| - 1;
      LastIsMember(files[..n], name);
      assert files == files[..n] + [files[n]];
    }
  }

  /** One form writes each of its names once, so it never spoils its own files. */
  lemma FormOwnFiles(parts: seq<FormPart>, item: string, caption: string, opens: string -> bool, i: nat)
    requires i < |FilesOf(parts, item, caption, opens)|
    ensures var files := FilesOf(parts, item, caption, opens);
            LastWritten(files, files[i].filename) == Some(files[i].content)
  {
    UploadNamesDistinct(Multipart.Upload([], caption), parts, item, 1, opens);
    LastOfDistinct(FilesOf(parts, item, caption, opens), i);
  }

  /** Stored part `k` writes the name of a row of other content. */
  predicate Clashes(w: World, parts: seq<FormPart>, item: string, opens: string -> bool, k: nat, row: nat)
    requires k < |parts| && row < |w.store.photos|
  {
    var name := w.store.photos[row].filename;
    && Stored(parts, k, item, 1, opens) && Multipart.FileName(parts[k].headers, item, 1 + k) == name
    && name in w.disk && parts[k].content != w.disk[name]
  }

  /** A form is harmless exactly when no stored part writes the name of a photo whose file holds something else. */
  lemma FormHarmlessIff(w: World, id: nat, parts: seq<FormPart>, item: string, caption: string, text: string,
                        opens: string -> bool)
    ensures Harmless(w, Send(id, FilesOf(parts, item, caption, opens), text)) <==>
            forall k: nat, row: nat :: k < |parts| && row < |w.store.photos| ==> !Clashes(w, parts, item, opens, k, row)
  {
    hide Receive, Stored, Multipart.FileName, LastWritten;
    var files := FilesOf(parts, item, caption, opens);
    forall i | 0 <= i < |files| ensures LastWritten(files, files[i].filename) == Some(files[i].content) {
      FormOwnFiles(parts, item, caption, opens, i);
    }
    forall row: nat | row < |w.store.photos| && w.store.photos[row].filename in w.disk
      ensures var name := w.store.photos[row].filename;
              (LastWritten(files, name) == None || LastWritten(files, name) == Some(w.disk[name])) <==>
              forall k: nat :: k < |parts| ==> !Clashes(w, parts, item, opens, k, row)
    {
      RowHarmless(w, parts, item, caption, opens, row);
    }
  }

  lemma RowHarmless(w: World, parts: seq<FormPart>, item: string, caption: string, opens: string -> bool, row: nat)
    requires row < |w.store.photos| && w.store.photos[row].filename in w.disk
    ensures var name, files := w.store.photos[row].filename, FilesOf(parts, item, caption, opens);
            (LastWritten(files, name) == None || LastWritten(files, name) == Some(w.disk[name])) <==>
            forall k: nat :: k < |parts| ==> !Clashes(w, parts, item, opens, k, row)
  {
    hide Receive, Stored, Multipart.FileName, LastWritten;
    var name, files := w.store.photos[row].filename, FilesOf(parts, item, caption, opens);
    LastIsMember(files, name);
    if LastWritten(files, name).Some? {
      var f :| f in files && f.filename == name && f.content == LastWritten(files, name).value;
      ReceiveMembers(Multipart.Upload([], caption), parts, item, 1, opens, f);
      var k: nat :| k < |parts| && Stored(parts, k, item, 1, opens) && FileOf(parts, k, item, 1) == f;
      assert Clashes(w, parts, item, opens, k, row) <==> f.content != w.disk[name];
    }
    forall k: nat | k < |parts| && Clashes(w, parts, item, opens, k, row)
      ensures LastWritten(files, name) == Some(parts[k].content)
    {
      var f := FileOf(parts, k, item, 1);
      ReceiveMembers(Multipart.Upload([], caption), parts, item, 1, opens, f);
      var i :| 0 <= i < |files| && files[i] == f;
      FormOwnFiles(parts, item, caption, opens, i);
    }
  }

  /** At one position both forms store a part, of one form and extension but with different content. */
  ghost predicate Spoils(p: seq<FormPart>, q: seq<FormPart>, item: string,
                         opens1: string -> bool, opens2: string -> bool)
  {
    exists k: nat :: k < |p| && k < |q| && Stored(p, k, item, 1, opens1) && Stored(q, k, item, 1, opens2)
                     && SameForm(p[k].headers, q[k].headers) && p[k].content != q[k].content
  }

  /** The world after a first form is uploaded. */
  function AfterFirst(w: World, id: nat, p: seq<FormPart>, item: string, caption: string,
                      opens: string -> bool): World
  {
    Act(w, Send(id, FilesOf(p, item, caption, opens), caption))
  }

  /** The rows of the form, and no others, come after the rows that were there. */
  lemma FirstRows(w: World, id: nat, p: seq<FormPart>, item: string, caption: string, opens: string -> bool)
    requires id in w.store.refs
    ensures var v, files := AfterFirst(w, id, p, item, caption, opens), FilesOf(p, item, caption, opens);
            && |v.store.photos| == |w.store.photos| + |files|
            && forall i :: 0 <= i < |files| ==>
                 && v.store.photos[|w.store.photos| + i].filename == files[i].filename
                 && files[i].filename in v.disk && v.disk[files[i].filename] == files[i].content
  {
    hide Step, Receive, WriteAll, LastWritten;
    var files := FilesOf(p, item, caption, opens);
    SendRows(w.store, id, files, caption);
    forall i | 0 <= i < |files| ensures LastWritten(files, files[i].filename) == Some(files[i].content) {
      FormOwnFiles(p, item, caption, opens, i);
    }
    forall i | 0 <= i < |files|
      ensures files[i].filename in WriteAll(w.disk, files)
      ensures WriteAll(w.disk, files)[files[i].filename] == files[i].content
    {
      WriteAllAt(w.disk, files, files[i].filename);
    }
  }

  lemma FirstCount(w: World, id: nat, p: seq<FormPart>, item: string, caption: string, opens: string -> bool)
    ensures var v, files := AfterFirst(w, id, p, item, caption, opens), FilesOf(p, item, caption, opens);
            |v.store.photos| == |w.store.photos| + if id in w.store.refs then |files| else 0
  {
    hide Step, Receive;
    SendRows(w.store, id, FilesOf(p, item, caption, opens), caption);
  }

  /**
   * The second of two forms is harmless exactly when nowhere it stores other content over the first,
   * if that was for an item there is, or over a photo that was there before both.
   */
  lemma SecondFormHarmlessIff(w: World, id: nat, p: seq<FormPart>, q: seq<FormPart>, item: string, caption1: string,
                              caption2: string, opens1: string -> bool, opens2: string -> bool)
    ensures var v := AfterFirst(w, id, p, item, caption1, opens1);
            && |w.store.photos| <= |v.store.photos|
            && (Harmless(v, Send(id, FilesOf(q, item, caption2, opens2), caption2)) <==>
                && (id in w.store.refs ==> !Spoils(p, q, item, opens1, opens2))
                && forall k: nat, row: nat :: k < |q| && row < |w.store.photos| ==>
                     !Clashes(v, q, item, opens2, k, row))
  {
    hide Receive, Stored, Multipart.FileName, SameForm, Step, Harmless, AfterFirst, FilesOf, Clashes;
    var v := AfterFirst(w, id, p, item, caption1, opens1);
    FirstCount(w, id, p, item, caption1, opens1);
    FormHarmlessIff(v, id, q, item, caption2, caption2, opens2);
    if id in w.store.refs && Spoils(p, q, item, opens1, opens2) {
      SpoilClashes(w, id, p, q, item, caption1, opens1, opens2);
    }
    forall k: nat, row: nat
      | k < |q| && |w.store.photos| <= row < |v.store.photos| && Clashes(v, q, item, opens2, k, row)
      ensures id in w.store.refs && Spoils(p, q, item, opens1, opens2)
    {
      ClashSpoils(w, id, p, q, item, caption1, opens1, opens2, k, row);
    }
  }

  lemma SpoilClashes(w: World, id: nat, p: seq<FormPart>, q: seq<FormPart>, item: string, caption: string,
                     opens1: string -> bool, opens2: string -> bool)
    requires id in w.store.refs && Spoils(p, q, item, opens1, opens2)
    ensures var v := AfterFirst(w, id, p, item, caption, opens1);
            exists k: nat, row: nat :: k < |q| && row < |v.store.photos| && Clashes(v, q, item, opens2, k, row)
  {
    hide Receive, Multipart.FileName, SameForm, Stored, AfterFirst;
    var v, files := AfterFirst(w, id, p, item, caption, opens1), FilesOf(p, item, caption, opens1);
    var k: nat :| k < |p| && k < |q| && Stored(p, k, item, 1, opens1) && Stored(q, k, item, 1, opens2)
                  && SameForm(p[k].headers, q[k].headers) && p[k].content != q[k].content;
    ReceiveMembers(Multipart.Upload([], caption), p, item, 1, opens1, FileOf(p, k, item, 1));
    var i: nat :| i < |files| && files[i] == FileOf(p, k, item, 1);
    FirstRows(w, id, p, item, caption, opens1);
    SameNameIff(p[k].headers, q[k].headers, item, 1 + k, 1 + k);
    assert Clashes(v, q, item, opens2, k, |w.store.photos| + i);
  }

  lemma ClashSpoils(w: World, id: nat, p: seq<FormPart>, q: seq<FormPart>, item: string, caption: string,
                    opens1: string -> bool, opens2: string -> bool, k: nat, row: nat)
    requires id in w.store.refs && k < |q| && |w.store.photos| <= row
    requires row < |AfterFirst(w, id, p, item, caption, opens1).store.photos|
    requires Clashes(AfterFirst(w, id, p, item, caption, opens1), q, item, opens2, k, row)
    ensures Spoils(p, q, item, opens1, opens2)
  {
    hide Receive, Multipart.FileName, SameForm, Stored, AfterFirst;
    var files, i := FilesOf(p, item, caption, opens1), row - |w.store.photos|;
    FirstRows(w, id, p, item, caption, opens1);
    ReceiveMembers(Multipart.Upload([], caption), p, item, 1, opens1, files[i]);
    var l: nat :| l < |p| && Stored(p, l, item, 1, opens1) && FileOf(p, l, item, 1) == files[i];
    SameNameIff(p[l].headers, q[k].headers, item, 1 + l, 1 + k);
  }
}
