# Barrelfish: ONC RPC client, x86-64 page-table entries and kernel helpers

This project models four parts of the Barrelfish operating system in Dafny and proves
properties of each.

- **The ONC RPC client of the NFS library** (`lib/nfs/rpc.c`), split into two modules:
  - `rpc_wire.dfy`, module `RpcWire`: the XDR envelope.
    - The 72-byte call header that `rpc_call_init` writes: the transaction id (xid), message
      type, RPC version 2, program, version and procedure, a fixed AUTH_UNIX credential for
      machine "barrelfish" with uid 0 and gid 0, and a null verifier.
    - An independent decoder of CALL messages, laid out as in section 9 of RFC 5531. It reads
      back every field of the header. A second decoder reads the AUTH_UNIX credential body
      field by field: stamp, machine name, uid, gid and the gid list.
    - The reply parser of `rpc_recv_handler`: `xdr_skip_auth` and the accept status.
  - `rpc_client.dfy`, module `RpcClient`: the client.
    - A class `Client` holds the pending-call hash table as an array of buckets. Each bucket is
      a sequence of calls, head first.
    - `Call` enqueues a call at the head of its bucket and dequeues it again when the send fails.
    - `Receive` unlinks the first call with the reply's xid and runs its callback at most once:
      not at all when an accepted reply's auth or accept status is malformed.
    - `Timer` runs the retransmission state machine over every bucket. `TickCall` is one step
      of it: retransmit every third timer firing, give up after 60 retransmission attempts, and call
      back with status -1, -1 and no reply.
    - Callbacks are recorded, in order, in a ghost log of events.
    - Lemmas follow a call that is never answered to its timeout. With every send succeeding
      it times out on the 183rd firing after exactly 60 retransmissions. With every send
      failing it gives up after 63 firings and is never resent.
- **x86-64 page-table entries of the nested-paging test**
  (`usr/tests/nested_paging_test/nestedpaging.h`), in `nested_paging.dfy`, module
  `NestedPaging`. Entries are 64-bit bit-vectors.
  - The attribute-mask algebra `paging_x86_64_mask_attrs`.
  - The translation `vregion_to_pmap`.
  - The four entry formats of section 4.5 of volume 3A of the Intel 64 and IA-32 Architectures
    Software Developer's Manual: page-directory entry, 1 GiB, 2 MiB and 4 KiB page entries.
  - The map, modify-flags and unmap operations, as methods that write one cell of a page-table
    array.
- **Integer helpers of `kernel/include/kernel.h`**, in `kernel_util.dfy`, module `KernelUtil`:
  `log2flr`, `log2cl`, `bitaddralign`, `ROUND_UP`, `min` and `max`.
  - Machine words are 64-bit unsigned integers.
  - `ROUND_UP` wraps modulo 2^64.
  - Its `&` and `~` are an explicit bitwise AND on naturals and a 64-bit complement.
- **The x86-32 dispatcher's critical-section test** `dispatcher_is_disabled_ip`, in
  `dispatcher.dfy`, module `DispatcherShared`.

## Where the code and its own comments differ

The model follows the code in each case.

- The comment at `lib/nfs/rpc.c:52` calls `RPC_MAX_RETRANSMIT` the "max number of
  retransmissions before giving up". The code counts attempts, not retransmissions.
  - `retries` is incremented before the send (`lib/nfs/rpc.c:250`). A failed send only takes
    `timers` back by one.
  - So a fresh call whose resends all fail gives up after 63 firings, having retransmitted
    nothing (`RpcClient.RunFailing`). A call whose resends all succeed gives up on the 183rd
    firing, after 60 retransmissions (`RpcClient.NoReplyTimesOut`).
- The comment at `usr/tests/nested_paging_test/nestedpaging.h:228` says the flags are masked
  "with provided access rights mask". For EXECUTE_DISABLE they are not: `vregion_to_pmap` never
  clears it, although it computes that it should.
  - Lines 217-219 clear EXECUTE_DISABLE in the pmap flags of an executable, non-guard region,
    so the mask has that bit clear.
  - But the result starts with EXECUTE_DISABLE (line 227), and line 175 of `mask_attrs` ANDs
    with `mask | EXECUTE_DISABLE`, which keeps the bit whatever the mask says.
  - `NestedPaging.VregionToPmap` states that the bit is always set. `NestedPaging.PmapFlags`
    states what the pmap flags themselves ask for.
- The comment of `bitaddralign` speaks of the largest x with 2^x < n. The code returns the
  largest x with 2^x <= n, among the exponents at which the base is aligned. For example, n = 4
  at base 0 gives 2 (`KernelUtil.BitAddrAlign`).

## Model

| member | source | states |
|---|---|---|
| RpcWire.WordBytes | lib/nfs/rpc.c:95-111 | a word goes on the wire as four bytes that read back as the same word |
| RpcWire.BytesRoundTrip | lib/nfs/rpc.c:184-186 | reading four bytes as a word and writing the word back yields the same four bytes |
| RpcWire.XdrString | lib/nfs/rpc.c:113-118 | an XDR string is its length word, its bytes and zero padding to the next 4-byte unit |
| RpcWire.MachineNameWords | lib/nfs/rpc.c:114-115 | the machine-name string is the words 10, "barr", "elfi", "sh\0\0" |
| RpcWire.CallHeader | lib/nfs/rpc.c:83-135 | the call header is RPC_CALL_HEADER_LEN = 72 bytes; bytes 32-64 are the credential body of AUTH_SIZE = 32 bytes |
| RpcWire.CallInit | lib/nfs/rpc.c:89-123 | rpc_call_init fails with LWIP_ERR_BUF exactly when the buffer holds fewer than 72 bytes; otherwise it writes the call header |
| RpcWire.CallHeaderLayout | lib/nfs/rpc.c:94-132 | word k of the header is, in order: xid, CALL, 2, prog, vers, proc, AUTH_UNIX, AUTH_SIZE, stamp 0, the name, uid 0, gid 0, no gids, AUTH_NULL, 0 |
| RpcWire.CallHeaderDecodes | lib/nfs/rpc.c:83-135 | an RFC 5531 decoder reads header-plus-arguments back as a CALL of prog/vers/proc with the xid, an AUTH_UNIX credential whose declared length covers exactly its body, a null verifier and the argument bytes |
| RpcWire.CredBodyDecodes | lib/nfs/rpc.c:108-128 | an AUTH_UNIX decoder reads the credential body back as stamp 0, machine "barrelfish", uid AUTH_UID, gid AUTH_GID and an empty gid list, with nothing left over |
| RpcWire.CallCredentialDecodes | lib/nfs/rpc.c:83-135 | the credential that the CALL decoder extracts from a written header decodes as that AUTH_UNIX credential |
| RpcWire.SkipAuth | lib/nfs/rpc.c:138-159 | skipping an auth succeeds iff the flavor and length words and then length bytes are present, and lands just past them |
| RpcWire.ParseStatus | lib/nfs/rpc.c:213-228 | a reply that was not accepted gets acceptstat 0xFFFFFFFF with the cursor after the status word; an accepted one parses iff its auth can be skipped and an accept status follows, and then carries the word after the auth as its accept status, with the cursor just past it |
| RpcWire.AcceptedReplyParses | lib/nfs/rpc.c:213-225 | parsing a well-formed accepted reply returns MSG_ACCEPTED, the accept status it carries, and a cursor on its results |
| RpcWire.OtherReplyParses | lib/nfs/rpc.c:226-228 | parsing a reply with any other status returns that status, acceptstat 0xFFFFFFFF and the bytes after the status word |
| RpcClient.Hash | lib/nfs/rpc.c:66-69 | the bucket of an xid is a valid index of the table |
| RpcClient.FindCall | lib/nfs/rpc.c:197-200 | the walk stops at the first call with the xid, or at the end when no call has it |
| RpcClient.FindPending | lib/nfs/rpc.c:197-200 | the loop that walks a bucket returns the position of the first call with the xid |
| RpcClient.Deliver | lib/nfs/rpc.c:178-239 | a short, non-reply or unknown-xid datagram changes nothing; otherwise the first matching call leaves its bucket (a multiset difference of one) and its callback runs at most once, exactly when the status parses, with replystat and the not-accepted sentinel from the datagram |
| RpcClient.DeliverAcceptedReply | lib/nfs/rpc.c:213-231 | an accepted reply to a pending call removes that call and invokes its callback with MSG_ACCEPTED, the accept status and the results |
| RpcClient.DeliverOtherReply | lib/nfs/rpc.c:226-231 | a reply that was not accepted removes its call and invokes its callback with the reply status and acceptstat 0xFFFFFFFF |
| RpcClient.DuplicateReplyDropped | lib/nfs/rpc.c:198-211 | once a reply has completed its call, a second copy finds no call and is dropped, when xids in the bucket are distinct |
| RpcClient.TickCall | lib/nfs/rpc.c:249-296 | one timer firing expires a call iff its third firing comes with 60 retries used; otherwise the call counts a firing, or is resent with one more retry and its timer reset when the send succeeds, or keeps its timer at two when the send fails; the counters stay in range |
| RpcClient.TickBucket | lib/nfs/rpc.c:246-301 | the survivors and callbacks together number the calls of the bucket; every call that expires yields its timeout callback (status -1, -1, no reply), every call that does not stays linked in its advanced state, and every callback is the timeout callback of an expiring call of the bucket |
| RpcClient.TickBucketPlaced | lib/nfs/rpc.c:246-301 | calls that survive a sweep stay in their bucket with their counters in range |
| RpcClient.SweepBucket | lib/nfs/rpc.c:246-301 | the loop over a bucket leaves exactly the surviving calls of TickBucket, in order |
| RpcClient.TickEvents | lib/nfs/rpc.c:309-313 | every callback a timer firing makes is the timeout callback (status -1, -1, no reply) of an expiring call of one of the buckets |
| RpcClient.RunSucceeding | lib/nfs/rpc.c:249-296 | with every send succeeding, an unanswered call stays pending for (3 - timers) + 3 * (60 - retries) - 1 firings, then times out after 60 - retries more retransmissions |
| RpcClient.NoReplyTimesOut | lib/nfs/rpc.c:51-52 | a fresh call that is never answered times out on the 183rd firing after exactly RPC_MAX_RETRANSMIT retransmissions, and is pending before that |
| RpcClient.RunFailing | lib/nfs/rpc.c:288-293 | with every send failing, an unanswered call is never resent and times out after (3 - timers) + (60 - retries) firings |
| RpcClient.Client.Init | lib/nfs/rpc.c:325-360 | rpc_init empties every bucket, records the server, sets the connected address to INADDR_NONE and port 0, and seeds the next xid |
| RpcClient.Client.Call | lib/nfs/rpc.c:380-450 | error codes for each failure: buffer, argument encoding, record allocation, send. The next xid advances once the buffer exists. On success the new call (xid, no timers or retries, header plus arguments) heads its bucket. On any failure the table is unchanged. The connected address and port are set once the record exists |
| RpcClient.Client.Receive | lib/nfs/rpc.c:163-240 | the bucket the reply's xid hashes to becomes Deliver's bucket, the callbacks are Deliver's, and the other buckets are unchanged |
| RpcClient.Client.TraverseBucket | lib/nfs/rpc.c:242-302 | bucket hid becomes TickBucket's surviving calls, every other bucket is unchanged, and that bucket's timeout callbacks are appended to the log |
| RpcClient.Client.Timer | lib/nfs/rpc.c:305-314 | the table becomes KeptAll of the old table (every bucket swept exactly once) and the callbacks are TickEvents of the old table, in bucket order; the table stays well placed |
| RpcClient.Client.Destroy | lib/nfs/rpc.c:453-468 | every bucket is emptied and no callback runs |
| KernelUtil.Log2FloorBounds | kernel/include/kernel.h:77-83 | for n >= 1 the floor logarithm l satisfies 2^l <= n < 2^(l+1) |
| KernelUtil.Log2FloorUnique | kernel/include/kernel.h:77-83 | the floor logarithm is the only l with 2^l <= n < 2^(l+1) |
| KernelUtil.Log2Flr | kernel/include/kernel.h:77-83 | the shifting loop returns the floor logarithm: 2^l <= num < 2^(l+1) for num >= 1, and 0 for 0 and 1; it fits in a uint8_t |
| KernelUtil.Log2Ceil | kernel/include/kernel.h:86-94 | for num >= 1, l is the least exponent with num <= 2^l; log2cl(0) = 1; l is the floor or the floor plus one |
| KernelUtil.Log2CeilPowers | kernel/include/kernel.h:86-94 | for every num, 0 included, log2cl equals log2flr exactly when num is a power of two |
| KernelUtil.BitAddrAlign | kernel/include/kernel.h:96-108 | bitaddralign(0, b) = 0; for n > 0 the result r has 2^r <= n and b aligned at 2^r, and no larger exponent has both |
| KernelUtil.BitAddrAlignExample | kernel/include/kernel.h:67-68 | the example of the comment: only 2 satisfies the contract for n = 20 at base 4 |
| KernelUtil.RoundUp | kernel/include/kernel.h:52 | ROUND_UP never exceeds the wrapped sum n + size - 1 |
| KernelUtil.RoundUpPowerOfTwo | kernel/include/kernel.h:52 | for size = 2^k and no overflow, ROUND_UP(n, size) is a multiple of size with n <= r < n + size |
| KernelUtil.Min | kernel/include/kernel.h:55 | min is at most both arguments and equal to one of them |
| KernelUtil.Max | kernel/include/kernel.h:58 | max is at least both arguments and equal to one of them |
| NestedPaging.MaskAttrs | usr/tests/nested_paging_test/nestedpaging.h:172-181 | every bit but EXECUTE_DISABLE is attr AND mask; EXECUTE_DISABLE is attr OR mask |
| NestedPaging.MaskAttrsIdempotent | usr/tests/nested_paging_test/nestedpaging.h:175-178 | masking twice with one mask equals masking once |
| NestedPaging.MaskAttrsCompose | usr/tests/nested_paging_test/nestedpaging.h:172-181 | two maskings are one masking by the rights both grant, with execute-disable from either |
| NestedPaging.PmapFlags | usr/tests/nested_paging_test/nestedpaging.h:210-223 | the pmap flags always have USER_SUPERVISOR; READ_WRITE iff write and not guard; EXECUTE_DISABLE clear iff execute and not guard; CACHE_DISABLED iff nocache and not guard; nothing else |
| NestedPaging.VregionToPmap | usr/tests/nested_paging_test/nestedpaging.h:208-236 | the result always has PRESENT, USER_SUPERVISOR and EXECUTE_DISABLE; READ_WRITE iff write and not guard; it lies within PRESENT, US, RW and XD, so never CACHE_DISABLED |
| NestedPaging.NocacheDropped | usr/tests/nested_paging_test/nestedpaging.h:220-231 | an uncached region's pmap flags ask for CACHE_DISABLED but the translation drops it |
| NestedPaging.VregionToPmapIntended | usr/tests/nested_paging_test/nestedpaging.h:225-235 | with the arch flags taken from the pmap flags, CACHE_DISABLED is set iff nocache and not guard; the rest is as VregionToPmap |
| NestedPaging.IntendedDiffersOnlyInCacheDisabled | usr/tests/nested_paging_test/nestedpaging.h:229-233 | the two translations agree on every bit but CACHE_DISABLED |
| NestedPaging.PageFlags | usr/tests/nested_paging_test/nestedpaging.h:254-262 | in a 1 GiB / 2 MiB entry each flag field is set iff the bitmap has that flag, the PAT bit (12) from ATTR_INDEX, always1 is set, and nothing outside the flag fields |
| NestedPaging.SmallFlags | usr/tests/nested_paging_test/nestedpaging.h:314-321 | in a 4 KiB entry each flag field is set iff the bitmap has that flag, the PAT bit (7) from ATTR_INDEX, and nothing outside the flag fields |
| NestedPaging.PdirEntry | usr/tests/nested_paging_test/nestedpaging.h:191-203 | a table entry is present, writable and user-accessible, has base_addr = base >> 12 truncated to 28 bits, and every other bit clear |
| NestedPaging.HugeEntry | usr/tests/nested_paging_test/nestedpaging.h:248-266 | a 1 GiB entry carries the bitmap's flags, base_addr = base >> 30 truncated to 10 bits, and every other bit clear |
| NestedPaging.LargeEntry | usr/tests/nested_paging_test/nestedpaging.h:278-296 | a 2 MiB entry carries the bitmap's flags, base_addr = base >> 21 truncated to 27 bits, and every other bit clear |
| NestedPaging.SmallEntry | usr/tests/nested_paging_test/nestedpaging.h:308-325 | a 4 KiB entry carries the bitmap's flags, base_addr = base >> 12 truncated to 36 bits, and every other bit clear |
| NestedPaging.ModifiedPage | usr/tests/nested_paging_test/nestedpaging.h:337-353 | modifying a 1 GiB / 2 MiB entry sets its flag fields from the bitmap and keeps every other bit: base, accessed, dirty, reserved and available |
| NestedPaging.ModifiedSmall | usr/tests/nested_paging_test/nestedpaging.h:392-407 | modifying a 4 KiB entry sets its flag fields from the bitmap and keeps every other bit |
| NestedPaging.SetPageFlags | usr/tests/nested_paging_test/nestedpaging.h:342-350 | the field-by-field assignments of the 1 GiB / 2 MiB flags yield ModifiedPage |
| NestedPaging.SetSmallFlags | usr/tests/nested_paging_test/nestedpaging.h:397-404 | the field-by-field assignments of the 4 KiB flags yield ModifiedSmall |
| NestedPaging.ModifyHugeRemaps | usr/tests/nested_paging_test/nestedpaging.h:337-353 | modifying a mapped 1 GiB entry's flags gives the entry mapping the same base with the new flags |
| NestedPaging.ModifyLargeRemaps | usr/tests/nested_paging_test/nestedpaging.h:365-381 | the same for a 2 MiB entry |
| NestedPaging.ModifySmallRemaps | usr/tests/nested_paging_test/nestedpaging.h:392-407 | the same for a 4 KiB entry |
| NestedPaging.MapTable | usr/tests/nested_paging_test/nestedpaging.h:191-203 | map_table writes PdirEntry(base) into entry i and no other entry |
| NestedPaging.MapHuge | usr/tests/nested_paging_test/nestedpaging.h:248-266 | map_huge writes HugeEntry(base, bitmap) into entry i and no other entry |
| NestedPaging.MapLarge | usr/tests/nested_paging_test/nestedpaging.h:278-296 | map_large writes LargeEntry(base, bitmap) into entry i and no other entry |
| NestedPaging.Map | usr/tests/nested_paging_test/nestedpaging.h:308-325 | map writes SmallEntry(base, bitmap) into entry i and no other entry |
| NestedPaging.ModifyFlagsHuge | usr/tests/nested_paging_test/nestedpaging.h:337-353 | entry i becomes ModifiedPage of its old value; no other entry changes |
| NestedPaging.ModifyFlagsLarge | usr/tests/nested_paging_test/nestedpaging.h:365-381 | entry i becomes ModifiedPage of its old value; no other entry changes |
| NestedPaging.ModifyFlags | usr/tests/nested_paging_test/nestedpaging.h:392-407 | entry i becomes ModifiedSmall of its old value; no other entry changes |
| NestedPaging.Unmap | usr/tests/nested_paging_test/nestedpaging.h:409-412 | entry i becomes X86_64_PTABLE_CLEAR, which is not present; no other entry changes |
| DispatcherShared.IsDisabledIp | include/arch/x86_32/barrelfish_kpi/dispatcher_shared_arch.h:28-38 | disabled at every rip when the flag is set and at every rip in [crit_pc_low, crit_pc_high); disabled at no other rip |
| DispatcherShared.CritPcHighExcluded | include/arch/x86_32/barrelfish_kpi/dispatcher_shared_arch.h:37 | at rip = crit_pc_high the result is the disabled flag: the bound is exclusive |
| DispatcherShared.EmptyCriticalSection | include/arch/x86_32/barrelfish_kpi/dispatcher_shared_arch.h:36-37 | with crit_pc_low >= crit_pc_high the result is the disabled flag at every rip |

## Left out

**RPC client (`lib/nfs/rpc.c`)**

- **External collaborators.** The UDP socket, the periodic timer and the XDR library (`xdr_create_send`, `XDR_INLINE`, `xdr_uint32_t`, `XDR_DESTROY`) are not modelled.
  - Each send is an input saying whether it succeeded: `sendOk` for `rpc_call`, and the set `failing` of xids whose retransmission fails during one timer firing.
  - A timer firing is a call of `Timer`.
  - The argument encoder is an input: its bytes, or None when it fails.
- **Buffer handling.** `XDR_INLINE` is taken to reserve exactly the bytes asked for, without rounding to the 4-byte unit. A reply whose verifier length is not a multiple of 4 is therefore skipped unpadded, as the handler would if `XDR_INLINE` does not round. `xdr.size` is taken to be the number of bytes written (header plus arguments).
- **Client.Init.** The `bench_tsc()` read that picks the first xid is the `seed` parameter. The table size `RPC_HTABLE_SIZE` (defined in `rpc.h`, which is not part of this model) is the `size` parameter. A failed timer creation in `rpc_init` is not modelled: the source asserts it succeeds.
- **Client.Call.**
  - The failure of `rpc_call_init` inside `rpc_call` is not a separate outcome. The buffer is created with room for the arguments plus `RPC_CALL_HEADER_LEN`, so the header always fits (`RpcWire.CallInit`).
  - An argument encoding that overflows the reserved `args_size` is an encoder failure.
- **Client.Receive and Client.Timer.**
  - Callbacks are recorded, not run. A callback that re-enters the client is not modelled.
  - Retransmissions are not recorded as datagrams. `TickCall` only says whether a call was resent.
- **Client.Destroy.** Cancelling the timer and closing the socket are outside the model.
- **xids.** Uniqueness of xids across the 2^32 wrap is not assumed. `DuplicateReplyDropped` states its distinctness hypothesis explicitly.
  - The outcome of a retransmission is keyed by xid: the set `failing`. Two pending calls that share an xid therefore always share the outcome of their resends within one timer firing.
- **Counters.** The `uint16_t` counters `timers` and `retries` are naturals. The table invariant bounds them by 3 and 60, so they never wrap.
- **Diagnostics.** Debug output and the `net_debug_state` flag are not modelled.
- **Constants.** `RPC_MSG_ACCEPTED` comes from `rpc.h`, which is not part of this model. It is taken as 0, the value of MSG_ACCEPTED in section 9 of RFC 5531. `BYTES_PER_XDR_UNIT` is taken as 4, the XDR unit of RFC 4506.

**Page tables (`nestedpaging.h`)**

- **Constants.** The `X86_64_PTABLE_*`, `PTABLE_*`, `VREGION_FLAGS_*` and `X86_64_HUGE_PAGE_BITS` constants come from headers that are not part of this model. They take the usual x86-64 values:
  - PRESENT through GLOBAL_PAGE are bits 0 to 8 and EXECUTE_DISABLE is bit 63;
  - `PTABLE_*` equals `X86_64_PTABLE_*`;
  - the vregion flags are READ 1, WRITE 2, EXECUTE 4, NOCACHE 8 and GUARD 0x20;
  - a huge page is 2^30 bytes;
  - `X86_64_PTABLE_CLEAR` is 0, so a cleared entry is not present (`NestedPaging.Unmap`).
- **Other code.** `wbinvd` and `do_full_tlb_flush` are inline assembly. `install_user_managed_pdpt` is only declared.

**Kernel helpers and dispatcher**

- **kernel.h.** Extern globals, prototypes and the static-assert macros have no behaviour to model.
- **Dispatcher.** The save-area getters of the dispatcher header wrap functions that are not part of this model. Addresses are naturals; the comparison is unsigned, as in the source.
- KernelUtil.RoundUpPowerOfTwo: stated only for power-of-two sizes without overflow. The macro promises nothing for other sizes.

## Findings

| source | as written | input that shows it | evidently intended | confidence | as-written member | corrected member |
|---|---|---|---|---|---|---|
| usr/tests/nested_paging_test/nestedpaging.h:231 | `flags \|= X86_64_PTABLE_FLAGS(flags)` takes the arch-specific flags from `flags` itself. That value holds only US, RW and XD, so the statement has no effect and the NOCACHE request computed at line 221 is lost | `vregion_to_pmap(VREGION_FLAGS_NOCACHE)`: the pmap flags have CACHE_DISABLED, the result does not | `flags \|= X86_64_PTABLE_FLAGS(pmap_flags)`, so an uncached region is mapped with CACHE_DISABLED | medium, not executed | NestedPaging.NocacheDropped | NestedPaging.VregionToPmapIntended |
