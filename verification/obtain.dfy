/** The two-phase sizing protocol of `obtain_impl`: probe `name_to_handle_at` with an
    empty handle, read back the size the kernel asks for, grow the buffer and call again.
    The kernel and the allocator are not modelled; their answers are the `Kernel` input, and
    the method reports the calls it made so that what the kernel was given can be stated. */
module Obtain {
  import opened Words
  import opened Handle

  /** Linux's errno for "value too large", which the probe is expected to fail with. */
  const EOVERFLOW: u32 := 75
  /** Linux's `AT_SYMLINK_FOLLOW` and `AT_EMPTY_PATH` lookup flags. */
  const AT_SYMLINK_FOLLOW: u32 := 0x400
  const AT_EMPTY_PATH: u32 := 0x1000

  /** The base of a relative lookup: the working directory (`AT_FDCWD`) or a duplicate of
      the caller's descriptor `fd`. */
  datatype Dir = AtCwd | DupOf(fd: int)

  /** One `name_to_handle_at` call as the kernel receives it: the base directory, the path
      bytes handed over, the words of the `struct file_handle` buffer and the flags. */
  datatype Call = NameToHandleAt(dir: Dir, path: seq<u8>, handle: seq<u32>, flags: i32)

  /** What the kernel and the allocator answer during one `obtain_impl`:
      - `probeErrno`: the raw errno `last_os_error()` reports after the first call;
      - `probeBytes`, `probeType`: what the first call leaves in `fh[0]` (the required
        `handle_bytes`) and `fh[1]`;
      - `slack`: the words of capacity `try_reserve` grants beyond the length plus the
        requested additional words;
      - `reply`, `replyMntId`, `replyWords`: the second call's return value, the mount id it
        stores and the words it writes from the start of the buffer;
      - `replyErrno`: the raw errno after a failed second call. */
  datatype Kernel = Kernel(
    probeErrno: Option<i32>,
    probeBytes: u32,
    probeType: u32,
    slack: nat,
    reply: i32,
    replyMntId: i32,
    replyWords: seq<u32>,
    replyErrno: Option<i32>)

  /** The buffer after the kernel has written `ws` over its start; the kernel never writes
      past the buffer. */
  function Overlay(buf: seq<u32>, ws: seq<u32>): (r: seq<u32>)
    ensures |r| == |buf|
    ensures forall i :: 0 <= i < |r| && i < |ws| ==> r[i] == ws[i]
    ensures forall i :: |ws| <= i < |r| ==> r[i] == buf[i]
  {
    if |ws| >= |buf| then ws[..|buf|] else ws + buf[|ws|..]
  }

  function DirOf(dirfd: Option<int>): Dir
  {
    match dirfd
    case Some(fd) => DupOf(fd)
    case None => AtCwd
  }

  /** The buffer of the second call: the probe's two header words, then zeros up to the
      capacity the allocator granted, which is at least the header plus the aligned size. */
  ghost predicate SizedBuffer(buf: seq<u32>, k: Kernel)
  {
    |buf| == 2 + GetAlignedFhSize(k.probeBytes) + k.slack &&
    buf[0] == k.probeBytes && buf[1] == k.probeType &&
    forall i :: 2 <= i < |buf| ==> buf[i] == 0
  }

  /** The whole outcome of `obtain_impl`. The probe is always made, with two zero words
      and the path followed by one NUL byte. Unless its errno is EOVERFLOW the errno is
      returned and there is no second call. Otherwise the second call gets the same
      directory, path and flags and the sized buffer; it succeeds exactly when it returns 0,
      and then the handle is the buffer as the kernel left it, with the mount id it reported;
      any other return value yields the errno of that call. */
  ghost predicate Negotiated(dirfd: Option<int>, path: seq<u8>, flags: i32, k: Kernel,
                             r: Result<LinuxFileHandle, IoError>, calls: seq<Call>)
  {
    1 <= |calls| <= 2 &&
    calls[0] == NameToHandleAt(DirOf(dirfd), path + [0], [0, 0], flags) &&
    (|calls| == 2 <==> k.probeErrno == Some(EOVERFLOW as i32)) &&
    (|calls| == 1 ==> r == Err(Os(k.probeErrno))) &&
    (|calls| == 2 ==>
      calls[1].dir == DirOf(dirfd) && calls[1].path == path + [0] && calls[1].flags == flags &&
      SizedBuffer(calls[1].handle, k) &&
      (r.Ok? <==> k.reply == 0) &&
      (r.Ok? ==> r.value == LinuxFileHandle(Overlay(calls[1].handle, k.replyWords), k.replyMntId)) &&
      (r.Err? ==> r.error == Os(k.replyErrno)))
  }

  /** `obtain_impl`, with the kernel's and the allocator's answers as `k`. */
  method ObtainImpl(dirfd: Option<int>, path: seq<u8>, flags: i32, k: Kernel)
    returns (r: Result<LinuxFileHandle, IoError>, calls: seq<Call>)
    ensures Negotiated(dirfd, path, flags, k, r, calls)
    ensures r.Ok? ==> |calls| == 2 && k.reply == 0
    ensures r.Ok? ==> |r.value.v| >= 2 + GetAlignedFhSize(k.probeBytes) >= 3
    ensures r.Ok? ==> 4 * (|r.value.v| - 2) > k.probeBytes
    ensures r.Ok? ==> GetMntId(r.value) == (if k.replyMntId >= 0 then Some(k.replyMntId) else None)
  {
    var d := DirOf(dirfd);
    var mntId: i32 := 0;
    var fh: seq<u32> := [0, 0];
    var pathV := path + [0];
    calls := [NameToHandleAt(d, pathV, fh, flags)];
    fh := [k.probeBytes, k.probeType];
    var firstErr := k.probeErrno;
    if firstErr.Some? {
      // EOVERFLOW fits in an i32, so `get_signed` cannot fail here
      var eoverflow := GetSigned(EOVERFLOW).value;
      if firstErr.value != eoverflow {
        r := Err(Os(firstErr));
        return;
      }
    } else {
      r := Err(Os(firstErr));
      return;
    }
    var fhSize := fh[0];
    var capacity := |fh| + GetAlignedFhSize(GetUsize(fhSize).value) + k.slack;
    while |fh| < capacity
      invariant 2 <= |fh| <= capacity
      invariant fh[0] == k.probeBytes && fh[1] == k.probeType
      invariant forall i :: 2 <= i < |fh| ==> fh[i] == 0
    {
      fh := fh + [0];
    }
    calls := calls + [NameToHandleAt(d, pathV, fh, flags)];
    fh := Overlay(fh, k.replyWords);
    if k.reply == 0 {
      mntId := k.replyMntId;
      r := Ok(LinuxFileHandle(fh, mntId));
    } else {
      r := Err(Os(k.replyErrno));
    }
  }

  /** The second call's buffer has room for everything the kernel announced: a reply of at
      most the header plus `ceil(probeBytes / 4)` words lands in full. */
  lemma ReplyFits(buf: seq<u32>, k: Kernel)
    requires SizedBuffer(buf, k)
    requires |k.replyWords| <= 2 + (k.probeBytes + 3) / 4
    ensures 4 * (|buf| - 2) >= k.probeBytes
    ensures Overlay(buf, k.replyWords)[..|k.replyWords|] == k.replyWords
  {
  }

  /** `obtain`: the handle of `path` itself, symbolic links not followed. */
  method ObtainPath(dirfd: Option<int>, path: seq<u8>, k: Kernel)
    returns (r: Result<LinuxFileHandle, IoError>, calls: seq<Call>)
    ensures Negotiated(dirfd, path, 0, k, r, calls)
  {
    r, calls := ObtainImpl(dirfd, path, 0, k);
  }

  /** `obtain_follow`: the handle of the target of `path`, a final symbolic link followed. */
  method ObtainFollow(dirfd: Option<int>, path: seq<u8>, k: Kernel)
    returns (r: Result<LinuxFileHandle, IoError>, calls: seq<Call>)
    ensures Negotiated(dirfd, path, AT_SYMLINK_FOLLOW, k, r, calls)
  {
    // AT_SYMLINK_FOLLOW fits in an i32, so `get_signed` cannot fail here
    var flags := GetSigned(AT_SYMLINK_FOLLOW).value;
    r, calls := ObtainImpl(dirfd, path, flags, k);
  }

  /** `obtain_fd`: the handle of the file `fd` refers to, via an empty path. */
  method ObtainFd(fd: Option<int>, k: Kernel)
    returns (r: Result<LinuxFileHandle, IoError>, calls: seq<Call>)
    ensures Negotiated(fd, [], AT_EMPTY_PATH, k, r, calls)
    ensures calls[0].path == [0]
  {
    // AT_EMPTY_PATH fits in an i32, so `get_signed` cannot fail here
    var flags := GetSigned(AT_EMPTY_PATH).value;
    r, calls := ObtainImpl(fd, [], flags, k);
  }
}
