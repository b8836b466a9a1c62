# LinuxFileHandle: a Dafny model of `name_to_handle_at_rs`

The crate wraps Linux's `name_to_handle_at` system call. It produces a `LinuxFileHandle`:
a kernel `struct file_handle` stored as `u32` words, plus the mount id the kernel reported.
A negative mount id is the sentinel for "mount unknown". This project models that value
type and the code around it:

- `words.dfy` (module `Words`) holds the Rust machine integers (`u8`, `u32`, `i32`, `usize`).
  It also holds native-endian word/byte conversion (`to_ne_bytes`, `from_ne_bytes`). The
  native byte order is a parameter `Endian = Little | Big`, and every property is proved for both.
- `handle.dfy` (module `Handle`) holds the handle datatype, `get_mnt_id`, `get_slice`,
  the checked conversions `get_signed` and `get_usize`, `get_aligned_fh_size`,
  `duplicate` and `TryFrom<&[u32]>`.
- `serialize.dfy` (module `Serialize`) holds serialisation. `get_vec` and `from_vec` are
  methods with the source's nested loops. They are proved against the specification functions
  `Flatten` and `Pack`, whose lengths, per-index contents and round trips are proved as lemmas.
- `obtain.dfy` (module `Obtain`) holds the two-phase sizing protocol of `obtain_impl` and its
  three entry points `obtain`, `obtain_follow` and `obtain_fd`. The kernel and the allocator
  are not modelled. Their answers form the `Kernel` input:
  - the errno after the probe;
  - the size the probe leaves in `fh[0]`;
  - the extra capacity `try_reserve` grants;
  - the return value, mount id, written words and errno of the second call.

  The method also returns the list of `name_to_handle_at` calls it made, with the buffer each
  call received. This is how "no second call" and "the buffer handed to the kernel" are stated.

`GetSlice` is the accessor `get_slice`. The contracts of `Duplicate`, `TryFrom` and the
round-trip lemmas are stated through it.

Two points of the code that the contracts follow:

- The first call's return value is never inspected. Only the errno is read
  (`src/lib.rs:158-167`), so the model decides on `probeErrno` alone. An absent errno, or any
  errno other than EOVERFLOW, is returned as the error, whatever the first call returned.
- The buffer for the second call is over-allocated. The code reserves
  `get_aligned_fh_size(size)` more words. That is `size / 4 + 1`, so one word too many when
  `size` is a multiple of 4. `try_reserve` may also grant more capacity than asked, and the
  loop pads with zeros up to the capacity (`src/lib.rs:170-174`). So the handle has *at least*
  `2 + size / 4 + 1` words, and the contracts say so with `>=`.

## Model

| member | source | states |
|---|---|---|
| `Words.WordRoundTrip` | src/lib.rs:82-104 | `from_ne_bytes(to_ne_bytes(w)) == w` for either native byte order |
| `Words.BytesRoundTrip` | src/lib.rs:82-104 | `to_ne_bytes(from_ne_bytes(b)) == b` for any four bytes, for either byte order |
| `Handle.GetMntId` | src/lib.rs:60-63 | returns `Some(mnt_id)` exactly when `mnt_id >= 0` and `None` otherwise |
| `Handle.GetSlice` | src/lib.rs:68-71 | returns the handle's words |
| `Handle.GetSigned` | src/lib.rs:110-117 | succeeds exactly when `s <= i32::MAX` and then returns `s` unchanged; otherwise fails with InvalidInput |
| `Handle.GetUsize` | src/lib.rs:128-135 | always succeeds and returns its input unchanged |
| `Handle.GetAlignedFhSize` | src/lib.rs:120-125 | equals `s/4 + 1`, so `4 * r > s` and `r >= ceil(s/4)`; one word more than `ceil(s/4)` exactly when `s` is a multiple of 4 |
| `Handle.Duplicate` | src/lib.rs:220-226 | the copy has the same words and the same mount id as the original |
| `Handle.TryFrom` | src/lib.rs:234-240 | the handle has exactly the given words and reports no mount id |
| `Serialize.GetVec` | src/lib.rs:76-88 | the result is `Flatten(h.v)`: `4 * len` bytes, and bytes `4i..4i+3` are the native bytes of word `i` |
| `Serialize.FlattenLength` | src/lib.rs:80-86 | the serialisation has four bytes per word |
| `Serialize.FlattenAt` | src/lib.rs:80-86 | byte `4i+k` of the serialisation is byte `k` of word `i`'s native bytes |
| `Serialize.FromVec` | src/lib.rs:91-107 | the result's words are `Pack(src)`, `ceil(len/4)` of them, and no push in the loop goes past the reserved `get_aligned_fh_size(len)`; its mount is unknown, so `get_mnt_id` is `None` |
| `Serialize.PackLength` | src/lib.rs:95-105 | packing `len` bytes yields `ceil(len/4)` words |
| `Serialize.PackAt` | src/lib.rs:95-105 | word `k` is built from bytes `4k..min(4k+4, len)` followed by zero bytes |
| `Serialize.PackStep` | src/lib.rs:95-105 | a chunk taken at a word boundary adds exactly one word, built from the zero-filled chunk |
| `Serialize.PackFlatten` | src/lib.rs:76-107 | unpacking the serialisation of any word sequence gives back the same words |
| `Serialize.FlattenPack` | src/lib.rs:76-107 | serialising the packed bytes gives back the input followed by the `(4 - len%4) % 4` zero bytes that filled the last chunk |
| `Serialize.AlignedBytesRoundTrip` | src/lib.rs:76-107 | a byte string whose length is a multiple of 4 comes back unchanged from `from_vec` followed by `get_vec` |
| `Serialize.ReserveCoversPack` | src/lib.rs:94-105 | the reservation covers every pushed word; for whole-word input it is one word more than needed |
| `Serialize.SerializationRoundTrip` | src/lib.rs:76-107 | `from_vec(get_vec(h))` has `h`'s words and an unknown mount id, whatever `h`'s mount id was |
| `Obtain.ObtainImpl` | src/lib.rs:139-184 | probe with two zero words and the NUL-terminated path; an absent or non-EOVERFLOW errno is returned with no second call; otherwise the second call gets the same directory, path and flags, and a buffer of `fh[0], fh[1]` followed by zeros, of length `2 + aligned(fh[0]) + slack`; a second-call result of 0 yields the buffer as the kernel left it and the reported mount id, any other result that call's errno; a returned handle has room for the `fh[0]` bytes the kernel announced |
| `Obtain.ReplyFits` | src/lib.rs:169-175 | the second buffer holds the `fh[0]` payload bytes the kernel announced, so a reply of header plus `ceil(fh[0]/4)` words is never cut short |
| `Obtain.ObtainPath` | src/lib.rs:187 | the protocol with flags 0 (a final symbolic link is not followed) |
| `Obtain.ObtainFollow` | src/lib.rs:190 | the protocol with `AT_SYMLINK_FOLLOW` |
| `Obtain.ObtainFd` | src/lib.rs:193 | the protocol with `AT_EMPTY_PATH` and the empty path, so the kernel receives the single byte `0` as path |

## Left out

- Allocation failure (`TryReserveError`) is not modelled. This covers `get_vec`, `from_vec`, `duplicate`, `try_from` and the reservations inside `obtain_impl`. The allocator decides it, not the crate. The model's operations therefore return plain values where the source returns `Result<_, TryReserveError>`. In `obtain_impl` the capacity granted is modelled (`Kernel.slack`); only the failure is left out.
- The buffer capacities `get_vec` and `from_vec` reserve are hints to the allocator with no visible effect. `from_vec`'s reservation is kept only to prove that it covers the words pushed.
- Descriptor handling in `obtain_impl` is not modelled. That covers `try_clone_to_owned`, its failure, `as_raw_fd` and `AT_FDCWD`. A lookup base is recorded only as "working directory" or "duplicate of descriptor `fd`".
- The `name_to_handle_at` system call and `last_os_error` are foreign code. They appear only as the `Kernel` input. The kernel's writes into the second buffer are modelled at word granularity as overwriting a prefix of the buffer, never past its end.
- A path containing a NUL byte is passed on unchanged. What the kernel does with it is kernel behaviour.
- `open_by_handle` is not modelled. Its meaning depends entirely on the kernel and on privileges. Not captured in particular: copying the words into a private buffer; converting the flag bits with `get_signed`, which fails with InvalidInput above `i32::MAX`; cloning `mnt_fd`; turning a return value `>= 0` into an owned descriptor and a negative one into the errno of `last_os_error()`.
- The `OpenFlags` catalogue is not modelled. It is a list of platform constants with no logic.
- `usize` is taken to be 64 bits wide; 32-bit targets are not modelled. On a 32-bit target `get_aligned_fh_size(get_usize(fh_size))` would overflow for `fh_size >= 0xFFFF_FFFD`. The room guarantee of `Obtain.ObtainImpl` therefore rests on this assumption.
- `Handle.GetUsize`: the conversion error arm is not modelled. Under the 64-bit assumption a `u32` always fits in `usize`.
- `Handle.GetAlignedFhSize` requires that `s + (4 - s % 4)` does not overflow `usize`. Under the 64-bit assumption every caller satisfies this: callers pass a `u32` or a slice length.
- `Serialize.FromVec` requires `|src| <= isize::MAX`, the bound Rust places on every slice length.
- The errno constants and lookup flags (`EOVERFLOW` = 75, `AT_SYMLINK_FOLLOW` = 0x400, `AT_EMPTY_PATH` = 0x1000) are Linux's values. The crate takes them from generated bindings, which are not part of this model.
