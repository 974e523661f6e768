/** The upload manager: renaming and deleting the files of the video and PDF
    upload directories, and keeping the lessons that point at them in step.

    A directory is the set of names of the files in it. Besides those names,
    `""`, `"."` and `".."` also resolve to something that exists (the
    directory itself and its parent), which is what the existence checks
    see. The names a caller passes in are single directory entries. */
module Uploads {
  import opened Results
  import opened Catalog
  import opened Filenames
  import opened Lessons

  datatype Kind = Videos | Pdfs

  /** The lesson column that points into a directory. */
  function AssetOf(kind: Kind): Asset {
    match kind
    case Videos => VideoFile
    case Pdfs => PdfFile
  }

  type Dir = set<string>

  /** A name that joins onto the directory as one entry inside it. */
  predicate IsEntryName(n: string) {
    n != "" && n != "." && n != ".." && '/' !in n
  }

  predicate WellFormedDir(dir: Dir) {
    forall n :: n in dir ==> IsEntryName(n)
  }

  /** `fs.access` of the name joined onto the directory succeeds. */
  predicate Exists(dir: Dir, n: string) {
    n in dir || n == "" || n == "." || n == ".."
  }

  /** The name a rename asks for: the display name through the stem
      pipeline, followed by the old name's extension as it is. Unlike an
      upload, there is no `file` fallback and the extension keeps its case. */
  function RenameTarget(from: string, display: string): string {
    SanitizeStem(display) + ExtName(from)
  }

  /** The target of a rename is a single entry unless it is a dot name. */
  lemma TargetHasNoSlash(from: string, display: string)
    requires '/' !in from
    ensures '/' !in RenameTarget(from, display)
  {
    NoSlashJoin(SanitizeStem(display), ExtName(from));
  }

  datatype Renamed = Renamed(dir: Dir, lessons: seq<Lesson>, name: string)

  /** `renameFile`. */
  function Rename(dir: Dir, lessons: seq<Lesson>, kind: Kind, from: string, display: string): (r: Result<Renamed>)
    requires IsEntryName(from)
    ensures r.Err? <==> from !in dir || (RenameTarget(from, display) != from && Exists(dir, RenameTarget(from, display)))
    ensures from !in dir ==> r == Err(NotFound(FileNotFound))
    ensures from in dir && r.Err? ==> r.error == Conflict(FileExists)
    ensures r.Ok? ==> r.value.name == RenameTarget(from, display) && IsEntryName(r.value.name)
    ensures r.Ok? ==> r.value.name in r.value.dir && r.value.dir - {r.value.name} == dir - {from}
    ensures r.Ok? ==> |r.value.dir| == |dir|
    ensures r.Ok? && r.value.name != from ==> r.value.name !in dir && from !in r.value.dir
    ensures r.Ok? ==> r.value.lessons == UpdateFilename(lessons, AssetOf(kind), from, Some(r.value.name))
  {
    if from !in dir then Err(NotFound(FileNotFound))
    else
      var name := RenameTarget(from, display);
      TargetHasNoSlash(from, display);
      if name == from then
        UpdateToSameName(lessons, AssetOf(kind), from);
        Ok(Renamed(dir, lessons, from))
      else if Exists(dir, name) then Err(Conflict(FileExists))
      else
        var moved := dir - {from} + {name};
        assert moved - {name} == dir - {from};
        assert |dir - {from}| == |dir| - 1;
        Ok(Renamed(moved, UpdateFilename(lessons, AssetOf(kind), from, Some(name)), name))
  }

  /** A rename keeps every name in the directory a single entry. */
  lemma RenameKeepsWellFormed(dir: Dir, lessons: seq<Lesson>, kind: Kind, from: string, display: string)
    requires IsEntryName(from) && WellFormedDir(dir)
    requires Rename(dir, lessons, kind, from, display).Ok?
    ensures WellFormedDir(Rename(dir, lessons, kind, from, display).value.dir)
  {
    var r := Rename(dir, lessons, kind, from, display).value;
    forall n | n in r.dir
      ensures IsEntryName(n)
    {
      if n != r.name {
        assert n in r.dir - {r.name};
      }
    }
  }

  /** The extension survives a rename whose display name keeps something. */
  lemma RenameKeepsExtension(from: string, display: string)
    requires SanitizeStem(display) != "" && ExtName(from) != ""
    requires RenameTarget(from, display) != ".."
    ensures ExtName(RenameTarget(from, display)) == ExtName(from)
    ensures BaseStem(RenameTarget(from, display)) == SanitizeStem(display)
  {
    ExtOfJoin(SanitizeStem(display), ExtName(from));
  }

  /** Renaming a renamed file to the same display name again changes nothing. */
  lemma RenameAgainIsNoop(dir: Dir, lessons: seq<Lesson>, kind: Kind, from: string, display: string)
    requires IsEntryName(from)
    requires SanitizeStem(display) != "" && ExtName(from) != ""
    requires Rename(dir, lessons, kind, from, display).Ok?
    ensures var r := Rename(dir, lessons, kind, from, display).value;
      Rename(r.dir, r.lessons, kind, r.name, display) == Ok(r)
  {
    RenameKeepsExtension(from, display);
  }

  /** Renaming a file back to its old stem restores the directory and the
      lessons, when the old name is one the sanitiser would have produced and
      no lesson pointed at the new name before. */
  lemma RenameRoundTrip(dir: Dir, lessons: seq<Lesson>, kind: Kind, from: string, display: string)
    requires IsEntryName(from)
    requires IsSafeStem(BaseStem(from)) && BaseStem(from) != "" && ExtName(from) != ""
    requires SanitizeStem(display) != ""
    requires Rename(dir, lessons, kind, from, display).Ok?
    requires Rename(dir, lessons, kind, from, display).value.name != from
    requires forall l :: l in lessons ==> FileOf(l, AssetOf(kind)) != Some(Rename(dir, lessons, kind, from, display).value.name)
    ensures var r := Rename(dir, lessons, kind, from, display).value;
      Rename(r.dir, r.lessons, kind, r.name, BaseStem(from)) == Ok(Renamed(dir, lessons, from))
  {
    var name := RenameTarget(from, display);
    RenameMoves(dir, lessons, kind, from, display);
    var moved := dir - {from} + {name};
    var updated := UpdateFilename(lessons, AssetOf(kind), from, Some(name));
    assert Rename(dir, lessons, kind, from, display).value == Renamed(moved, updated, name);
    TargetBack(from, display);
    RenameMoves(moved, updated, kind, name, BaseStem(from));
    MoveBack(dir, from, name);
    UpdateRoundTrip(lessons, AssetOf(kind), from, name);
  }

  /** Moving an entry to a free name and back restores the directory. */
  lemma MoveBack(dir: Dir, from: string, name: string)
    requires from in dir && name !in dir
    ensures dir - {from} + {name} - {name} + {from} == dir
  {
  }

  /** A rename to a free name moves the file and the references. */
  lemma RenameMoves(dir: Dir, lessons: seq<Lesson>, kind: Kind, from: string, display: string)
    requires IsEntryName(from) && from in dir
    requires RenameTarget(from, display) != from && !Exists(dir, RenameTarget(from, display))
    ensures Rename(dir, lessons, kind, from, display)
      == Ok(Renamed(dir - {from} + {RenameTarget(from, display)},
                    UpdateFilename(lessons, AssetOf(kind), from, Some(RenameTarget(from, display))),
                    RenameTarget(from, display)))
  {
  }

  /** The old stem, put through the pipeline and given the new name's
      extension, is the old name again. */
  lemma TargetBack(from: string, display: string)
    requires IsSafeStem(BaseStem(from)) && ExtName(from) != ""
    requires SanitizeStem(display) != "" && RenameTarget(from, display) != ".."
    ensures RenameTarget(RenameTarget(from, display), BaseStem(from)) == from
  {
    RenameKeepsExtension(from, display);
    SafeStemUnchanged(BaseStem(from));
  }

  /** A display name with nothing the pipeline keeps leaves only the old
      extension: a name whose only dot comes first, which `extname` then
      reads as having no extension; without an extension the rename is
      refused, since the empty name resolves to the directory itself. */
  lemma BlankDisplayName(dir: Dir, lessons: seq<Lesson>, kind: Kind, from: string, display: string)
    requires IsEntryName(from) && from in dir
    requires SanitizeStem(display) == ""
    ensures ExtName(from) == "" ==> Rename(dir, lessons, kind, from, display) == Err(Conflict(FileExists))
    ensures Rename(dir, lessons, kind, from, display).Ok? ==>
      Rename(dir, lessons, kind, from, display).value.name == ExtName(from)
      && ExtName(Rename(dir, lessons, kind, from, display).value.name) == ""
  {
    assert RenameTarget(from, display) == ExtName(from);
    ExtHasNoExt(ExtName(from));
  }

  /** An extension read as a name of its own is a dotfile. */
  lemma ExtHasNoExt(e: string)
    requires e == "" || (e[0] == '.' && '.' !in e[1..])
    ensures ExtName(e) == ""
  {
    if e != "" {
      forall k | 0 < k < |e|
        ensures e[k] != '.'
      {
        assert e[k] == e[1..][k - 1];
      }
      assert LastDot(e) == Some(0);
    }
  }

  datatype Deleted = Deleted(dir: Dir, lessons: seq<Lesson>)

  /** `deleteFile`: the file goes, and the lessons that pointed at it are
      left without one. */
  function Delete(dir: Dir, lessons: seq<Lesson>, kind: Kind, name: string): (r: Result<Deleted>)
    requires IsEntryName(name)
    ensures r.Err? <==> name !in dir
    ensures r.Err? ==> r.error == NotFound(FileNotFound)
    ensures r.Ok? ==> name !in r.value.dir && r.value.dir + {name} == dir && |r.value.dir| == |dir| - 1
    ensures r.Ok? ==> r.value.lessons == UpdateFilename(lessons, AssetOf(kind), name, None)
  {
    if name !in dir then Err(NotFound(FileNotFound))
    else
      assert (dir - {name}) + {name} == dir;
      Ok(Deleted(dir - {name}, UpdateFilename(lessons, AssetOf(kind), name, None)))
  }

  /** After a delete no lesson points at the file, and every other column
      and lesson is as it was. */
  lemma DeleteClearsReferences(dir: Dir, lessons: seq<Lesson>, kind: Kind, name: string)
    requires IsEntryName(name) && name in dir
    ensures var r := Delete(dir, lessons, kind, name).value;
      && FindByFilename(r.lessons, AssetOf(kind), name) == []
      && |r.lessons| == |lessons|
      && (forall i :: 0 <= i < |lessons| && FileOf(lessons[i], AssetOf(kind)) != Some(name) ==> r.lessons[i] == lessons[i])
  {
    UpdateMovesReferences(lessons, AssetOf(kind), name, None);
  }
}
