/**
 * The add-partition dialog: a size in MB that must fit the free space, a
 * volume label and a file system, with defaults of 1 GB (or all the free
 * space when there is less), "New Volume" and NTFS.
 */
module AddDialog {
  import opened Common

  const DefaultLabel: string := "New Volume"
  const DefaultFileSystem: string := "NTFS"
  /** The file systems the dialog offers, in order. */
  const FileSystems: seq<string> := ["NTFS", "FAT32", "exFAT"]
  /** The default size when the free space allows it: 1 GB. */
  const DefaultSizeMb: int := 1024

  class AddPartitionViewModel {
    const availableSpaceMb: int
    var sizeMb: int
    var volumeLabel: string
    var fileSystem: string

    constructor(availableSpaceMb: int64)
      ensures this.availableSpaceMb == availableSpaceMb
      ensures sizeMb == InitialSizeMb(availableSpaceMb)
      ensures volumeLabel == DefaultLabel && fileSystem == DefaultFileSystem
    {
      this.availableSpaceMb := availableSpaceMb;
      sizeMb := InitialSizeMb(availableSpaceMb);
      volumeLabel := DefaultLabel;
      fileSystem := DefaultFileSystem;
    }

    /** The dialog accepts exactly the sizes from 1 MB up to the free space, both ends included. */
    predicate IsValid()
      reads this
      ensures IsValid() <==> 1 <= sizeMb && sizeMb <= availableSpaceMb
      ensures IsValid() ==> availableSpaceMb >= 1
    {
      0 < sizeMb <= availableSpaceMb
    }

    method SetSizeMb(value: int64)
      modifies this`sizeMb
      ensures sizeMb == value
    {
      sizeMb := value;
    }

    method SetLabel(value: string)
      modifies this`volumeLabel
      ensures volumeLabel == value
    {
      volumeLabel := value;
    }

    method SetFileSystem(value: string)
      modifies this`fileSystem
      ensures fileSystem == value
    {
      fileSystem := value;
    }
  }

  /** `Math.Min(1024, availableSpaceMb)`. */
  function InitialSizeMb(availableSpaceMb: int): (size: int)
    ensures size <= DefaultSizeMb && size <= availableSpaceMb
    ensures size == DefaultSizeMb || size == availableSpaceMb
  {
    if availableSpaceMb < DefaultSizeMb then availableSpaceMb else DefaultSizeMb
  }

  /**
   * The default size is valid exactly when there is free space, and it is
   * the whole free space when that is under 1 GB.
   */
  lemma InitialSizeValidIffSpace(availableSpaceMb: int)
    ensures (0 < InitialSizeMb(availableSpaceMb) <= availableSpaceMb) <==> availableSpaceMb > 0
    ensures availableSpaceMb <= DefaultSizeMb ==> InitialSizeMb(availableSpaceMb) == availableSpaceMb
  {
  }

  /** The defaults are a non-empty label and a file system the dialog offers. */
  lemma DefaultsAreOffered()
    ensures DefaultFileSystem in FileSystems && FileSystems[0] == DefaultFileSystem
    ensures |DefaultLabel| > 0
    ensures |FileSystems| == 3
  {
  }
}
