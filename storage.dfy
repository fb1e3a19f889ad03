/**
 * The UPLOAD_DIR directory as the converter sees it: which files exist and
 * what they hold, plus the source of unique file names (uuid4().hex, here a
 * counter that never repeats).
 */
module Storage {

  /** A decoded raster after orientation correction and RGB conversion; its pixels are not modelled. */
  datatype Picture = Picture(id: nat)

  /** What a file holds, as far as Pillow's Image.open is concerned. */
  datatype Content = Image(picture: Picture) | NotAnImage

  /** The two kinds of temporary file: "<hex>.upload" for the raw upload, "<hex>.jpg" for the re-encoded image. */
  datatype Kind = RawUpload | Jpeg

  datatype Path = Path(id: nat, kind: Kind)

  class UploadDir {
    var files: map<Path, Content>
    var nextId: nat

    /** Every existing name was handed out before, so a new name is never an existing file. */
    ghost predicate Valid()
      reads this
    {
      forall p :: p in files ==> p.id < nextId
    }

    constructor (existing: map<Path, Content>, firstFreeId: nat)
      requires forall p :: p in existing ==> p.id < firstFreeId
      ensures Valid() && files == existing && nextId == firstFreeId
    {
      files := existing;
      nextId := firstFreeId;
    }

    /** A fresh file name of the given kind. */
    method FreshPath(kind: Kind) returns (p: Path)
      requires Valid()
      modifies this`nextId
      ensures Valid()
      ensures p == Path(old(nextId), kind) && nextId == old(nextId) + 1
      ensures p !in files
    {
      p := Path(nextId, kind);
      nextId := nextId + 1;
    }

    /** os.path.exists. */
    predicate Exists(p: Path)
      reads this
    {
      p in files
    }

    /** Writes a file (FileStorage.save, Image.save): creates it or replaces its content. */
    method Save(p: Path, c: Content)
      requires Valid() && p.id < nextId
      modifies this`files
      ensures Valid()
      ensures files == old(files)[p := c]
    {
      files := files[p := c];
    }

    /** os.remove, which fails on a missing file. */
    method Remove(p: Path)
      requires Valid() && p in files
      modifies this`files
      ensures Valid()
      ensures files == old(files) - {p}
    {
      files := files - {p};
    }
  }
}
