/** File mode bits, as Go's `os.FileMode` (a `uint32`) lays them out. */
module Modes {

  type FileMode = bv32

  /** `os.ModeDir`, bit 31. */
  const ModeDir: FileMode := 0x8000_0000
  /** `os.ModeSymlink`, bit 27. */
  const ModeSymlink: FileMode := 0x0800_0000
  /** `os.ModeDevice`, bit 26. */
  const ModeDevice: FileMode := 0x0400_0000
  /** `os.ModeNamedPipe`, bit 25. */
  const ModeNamedPipe: FileMode := 0x0200_0000
  /** `os.ModeSocket`, bit 24. */
  const ModeSocket: FileMode := 0x0100_0000
  /** `os.ModeCharDevice`, bit 21. */
  const ModeCharDevice: FileMode := 0x0020_0000
  /** `os.ModeIrregular`, bit 19. */
  const ModeIrregular: FileMode := 0x0008_0000

  /** `os.ModeType`: every bit that says what kind of file an entry is. */
  const ModeType: FileMode :=
    ModeDir | ModeSymlink | ModeNamedPipe | ModeSocket | ModeDevice | ModeCharDevice | ModeIrregular

  /** `FileMode.IsDir`. */
  predicate IsDir(m: FileMode)
  {
    m & ModeDir != 0
  }

  /** The symlink type bit is set. */
  predicate IsSymlink(m: FileMode)
  {
    m & ModeSymlink != 0
  }

  /** `FileMode.IsRegular`: no type bit at all. */
  predicate IsRegular(m: FileMode)
  {
    m & ModeType == 0
  }

  /** The single type flag `Set` allows for a descriptor's mode: the directory
      flag when the directory bit is set, else the symlink flag when that bit
      is set, else none. */
  function SelectedFlag(m: FileMode): FileMode
  {
    if IsDir(m) then ModeDir
    else if IsSymlink(m) then ModeSymlink
    else 0
  }

  /** Whether `Set` accepts a descriptor's mode: no type bit other than the
      selected flag may be set. Accepted modes are exactly the regular ones,
      the directories with no other type bit, and the symlinks with no other
      type bit; in particular an accepted mode is never both a directory and a
      symlink. */
  function ModeAccepted(m: FileMode): (ok: bool)
    ensures ok <==> (m & ModeType == 0 || m & ModeType == ModeDir || m & ModeType == ModeSymlink)
    ensures ok && IsDir(m) ==> !IsSymlink(m) && !IsRegular(m)
    ensures ok && !IsDir(m) && !IsSymlink(m) ==> IsRegular(m)
  {
    m & (ModeType & !SelectedFlag(m)) == 0
  }
}
