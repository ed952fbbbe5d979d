/** The list of open files of a partition, relinked in place as files are opened and closed
    (FAT_open and FAT_close, modules/libfat/fatfile.c). */
module OpenFileList {

  class ListedFile {
    var nextOpenFile: ListedFile?
    var prevOpenFile: ListedFile?

    constructor ()
    {
      nextOpenFile, prevOpenFile := null, null;
    }
  }

  /** The file at place `i` of the list, or none. */
  function At(files: seq<ListedFile>, i: int): ListedFile? { if 0 <= i < |files| then files[i] else null }

  class FileList {
    var firstOpenFile: ListedFile?
    var openFileCount: nat
    ghost var files: seq<ListedFile>

    /** The links in both directions are those of `files`, in which no file is twice. */
    ghost predicate Valid()
      reads this, files
    {
      && openFileCount == |files|
      && (forall i, j :: 0 <= i < j < |files| ==> files[i] != files[j])
      && firstOpenFile == At(files, 0)
      && (forall i :: 0 <= i < |files| ==> files[i].nextOpenFile == At(files, i + 1))
      && (forall i :: 0 <= i < |files| ==> files[i].prevOpenFile == At(files, i - 1))
    }

    constructor ()
      ensures Valid() && files == []
    {
      firstOpenFile, openFileCount, files := null, 0, [];
    }

    /** A file that is opened becomes the first of the list. */
    method Insert(file: ListedFile)
      requires Valid() && file !in files
      modifies this, file, files
      ensures Valid() && files == [file] + old(files)
    {
      openFileCount := openFileCount + 1;
      if firstOpenFile != null {
        file.nextOpenFile := firstOpenFile;
        firstOpenFile.prevOpenFile := file;
      } else {
        file.nextOpenFile := null;
      }
      file.prevOpenFile := null;
      firstOpenFile := file;
      ghost var was := files;
      files := [file] + files;
      assert forall k :: 0 < k < |files| ==> files[k] == was[k - 1];
    }

    /** A file that is closed is taken out of the list, wherever it is; the others keep their order. */
    method Remove(file: ListedFile, ghost i: nat)
      requires Valid() && i < |files| && files[i] == file
      modifies this, files
      ensures Valid() && files == old(files)[..i] + old(files)[i + 1..]
      ensures file.nextOpenFile == old(file.nextOpenFile) && file.prevOpenFile == old(file.prevOpenFile)
    {
      ghost var was := files;
      openFileCount := openFileCount - 1;
      Unlink(file, i);
      ghost var rest := was[..i] + was[i + 1..];
      Without(was, rest, i);
      forall k | 0 <= k < |rest|
        ensures rest[k].nextOpenFile == At(rest, k + 1) && rest[k].prevOpenFile == At(rest, k - 1)
      {
        var w := if k < i then k else k + 1;
        assert rest[k] == was[w];
        assert was[w].nextOpenFile == if w == i - 1 then At(was, i + 1) else At(was, w + 1);
        assert was[w].prevOpenFile == if w == i + 1 then At(was, i - 1) else At(was, w - 1);
      }
      files := rest;
    }

    /** The file's neighbours are linked to each other. */
    method Unlink(file: ListedFile, ghost i: nat)
      requires i < |files| && files[i] == file && file.nextOpenFile == At(files, i + 1)
               && file.prevOpenFile == At(files, i - 1)
      requires forall j, k :: 0 <= j < k < |files| ==> files[j] != files[k]
      modifies this`firstOpenFile, files
      ensures firstOpenFile == if i == 0 then At(files, 1) else old(firstOpenFile)
      ensures forall k :: 0 <= k < |files| ==>
                files[k].nextOpenFile == if k == i - 1 then At(files, i + 1) else old(files[k].nextOpenFile)
      ensures forall k :: 0 <= k < |files| ==>
                files[k].prevOpenFile == if k == i + 1 then At(files, i - 1) else old(files[k].prevOpenFile)
    {
      var next, prev := file.nextOpenFile, file.prevOpenFile;
      if next != null {
        next.prevOpenFile := prev;
      }
      if prev != null {
        prev.nextOpenFile := next;
      } else {
        firstOpenFile := next;
      }
    }
  }

  /** A list without its `i`-th file. */
  lemma Without(was: seq<ListedFile>, files: seq<ListedFile>, i: nat)
    requires i < |was| && files == was[..i] + was[i + 1..]
    ensures forall k :: 0 <= k < |files| ==> files[k] == was[if k < i then k else k + 1]
    ensures forall k :: -1 <= k <= |files| ==> At(files, k) == At(was, if k < i then k else k + 1)
    ensures (forall j, k :: 0 <= j < k < |was| ==> was[j] != was[k]) ==>
              forall j, k :: 0 <= j < k < |files| ==> files[j] != files[k]
  {
  }
}
