/** The file-handle value `LinuxFileHandle`: its representation, its accessors and the
    checked number conversions its constructors rely on. */
module Handle {
  import opened Words

  /** The `std::io::Error` values the crate can produce. `Os` carries the raw errno of
      `last_os_error()`, which is absent when the OS reported no code. */
  datatype IoError = Os(code: Option<i32>) | InvalidInput

  /** A handle: the kernel's `struct file_handle` as whole words, and the mount id reported
      with it. A negative mount id is the sentinel for "mount unknown". */
  datatype LinuxFileHandle = LinuxFileHandle(v: seq<u32>, mntId: i32)

  /** The sentinel mount id of handles built from raw data. */
  const UNKNOWN_MOUNT: i32 := -1

  /** `get_mnt_id`: the mount id, or `None` for the sentinel. */
  function GetMntId(h: LinuxFileHandle): (r: Option<i32>)
    ensures r.Some? <==> h.mntId >= 0
    ensures r.Some? ==> r.value == h.mntId
  {
    if h.mntId >= 0 then Some(h.mntId) else None
  }

  /** `get_slice`: the handle's words. */
  function GetSlice(h: LinuxFileHandle): (r: seq<u32>)
    ensures r == h.v
  {
    h.v
  }

  /** `get_signed`: the checked conversion `u32 -> i32`. */
  function GetSigned(s: u32): (r: Result<i32, IoError>)
    ensures r.Ok? <==> s <= I32_MAX
    ensures r.Ok? ==> r.value == s
    ensures r.Err? ==> r.error == InvalidInput
  {
    if s <= I32_MAX then Ok(s) else Err(InvalidInput)
  }

  /** `get_usize`: the checked conversion `u32 -> usize`. With the 64-bit `usize` this model
      assumes, every `u32` fits, so the error arm of the source's match is never taken. */
  function GetUsize(s: u32): (r: Result<usize, IoError>)
    ensures r.Ok? && r.value == s
  {
    Ok(s)
  }

  /** `get_aligned_fh_size`: the number of words reserved for `s` bytes. It adds
      `4 - s % 4` before dividing, so it rounds up and then adds one more word when `s` is
      already a multiple of 4. The requires is the absence of `usize` overflow in `s + align`. */
  function GetAlignedFhSize(s: usize): (r: usize)
    requires s + (4 - s % 4) <= USIZE_MAX
    ensures r == s / 4 + 1
    ensures 4 * r > s
    ensures r >= (s + 3) / 4
    ensures s % 4 == 0 ==> r == (s + 3) / 4 + 1
    ensures s % 4 != 0 ==> r == (s + 3) / 4
  {
    var align := 4 - s % 4;
    var alignedSize := s + align;
    alignedSize / 4
  }

  /** `duplicate`: a fresh handle with the same words and the same mount id. */
  function Duplicate(h: LinuxFileHandle): (r: LinuxFileHandle)
    ensures GetSlice(r) == GetSlice(h)
    ensures GetMntId(r) == GetMntId(h) && r.mntId == h.mntId
  {
    LinuxFileHandle(h.v[..], h.mntId)
  }

  /** `TryFrom<&[u32]>::try_from`: a handle made of caller-supplied words, mount unknown. */
  function TryFrom(value: seq<u32>): (r: LinuxFileHandle)
    ensures GetSlice(r) == value
    ensures GetMntId(r) == None
  {
    LinuxFileHandle(value[..], UNKNOWN_MOUNT)
  }
}
