# The pipe host core, modelled in Dafny

This project models the substrate of a multi-process pipeline runtime. A host process spawns
client processes, wires them up with pipes and sockets, and drives all their I/O from one
single-threaded event reactor built on epoll. It also streams log items between processes as JSON.
The model covers these parts of the host:

- **Descriptors.** The capability-tagged descriptor refs and their owners, in the current
  revision (`FileDescriptors`) and the older one (`LegacyFileDescriptors`). This includes the
  tag conversions, `release`, `reset` and the deleter that closes.
- **Reactor.** Activity statuses and event-handler ids (`Activity`). The epoll instance's
  registration and dispatch bookkeeping (`Epoll`). The older activity monitor (`LegacyActivityMonitor`).
- **I/O.** `do_while_eintr`, `io_result` and the `read`/`write` wrappers in both revisions (`Io`),
  with a scripted descriptor (`Outputs`). Pipes, socket pairs and abstract Unix-domain socket
  addresses (`Ipc`, `UnixDomainSocket`).
- **Spawn.** The spawn protocol, which is the error pipe, the eventfd gate, `fork`, the child's
  redirections and `close_range`, `pidfd_open`, and the read of the child's `errno`. It is modelled
  in both revisions (`ProcMgmt`, `LegacyProcMgmt`), as the trace of the calls each side makes. The
  integer-range utilities that split a descriptor range around kept descriptors are modelled too
  (`Segments`).
- **Log streaming.** The log item and its JSON object (`LogItem`). The non-blocking buffered writer
  (`JsonLogWriter`), the blocking writer (`JsonLog`) and the streaming reader (`JsonLogReader`).
- **JSON converters.** The client descriptions (`ClientCtl`, `LegacyClientCtl`) and the client
  startup configuration (`StartupConfig`), over a small JSON value type (`Json`).

System calls are not made. Each one is an input: the outcome it returns (a value and an `errno`),
or a script of such outcomes for a descriptor that is written or read several times. Classes
stand for the objects whose fields the source updates in place. Their methods are proved against
specification functions, and the properties are lemmas about those functions.

Two behaviours of the code that are easy to miss are modelled as written:

- `for_each_disjoint_segment` emits nothing when no split point lies inside the boundaries
  (src/utils/utils.hpp:202-205). It does not emit the whole range as one segment.
- `make_log_item` reads `when`, then `severity`, then `message`, and reports the first missing
  field.

## Model

| member | source | states |
|---|---|---|
| Activity.CanReadExactly | src/os_services/fd/activity_event.hpp:12-24 | among the four enumerators, `can_read` holds exactly for `read` and `read_or_write` |
| Activity.CanWriteExactly | src/os_services/fd/activity_event.hpp:12-30 | among the four enumerators, `can_write` holds exactly for `write` and `read_or_write` |
| Activity.NamedStatusDecided | src/os_services/fd/activity_monitor.hpp:14-32 | an enumerator is `read_or_write` iff both flags are set, `none` iff neither is, and it is determined by its two flags |
| Activity.FromFlags | src/os_services/fd/activity_monitor.hpp:14-20 | the enumerator built from two flags is named and reports exactly those flags |
| Activity.LowBits | src/os_services/fd/activity_monitor.hpp:25-32 | `can_read`/`can_write` of any value depend only on its two low bits |
| Activity.EventHandlerId.Default | src/os_services/fd/activity_monitor.hpp:40 | a default-constructed id holds 0 |
| Activity.EventHandlerId.constructor | src/os_services/fd/activity_monitor.hpp:42-44 | the explicit constructor stores its value |
| Activity.EventHandlerId.Next | src/os_services/fd/activity_monitor.hpp:49-54 | `next()` returns the id as it was and advances the counter by one modulo 2^64 |
| Activity.EventHandlerId.Equals | src/os_services/fd/activity_monitor.hpp:56 | the defaulted `operator==`: two ids are equal exactly when their counter values are |
| Activity.NextValue | src/os_services/fd/activity_monitor.hpp:49-54 | the successor of a `uint64_t` is one more, or 0 after the largest value |
| Activity.IdsHandedOut | src/os_services/fd/activity_monitor.hpp:49-54 | `n` successive `next()` calls hand out `n` ids, the first being the current value |
| Activity.IdsIncrease | src/os_services/fd/activity_monitor.hpp:49-54 | without wrap-around the i-th handed-out id is `v + i`, so the ids strictly increase and are distinct |
| Activity.Advance | src/os_services/fd/activity_monitor.hpp:49-54 | after `n` calls the counter is `v + n` when that fits in 64 bits |
| ClientCtl.PortInfoToJson | src/client_ctl/client_application_info.hpp:26-31 | the object has exactly the key `stream_content_type`, holding the content type |
| ClientCtl.MakePortInfo | src/client_ctl/client_application_info.hpp:36-41 | succeeds iff `stream_content_type` holds a string, which becomes the content type; otherwise names that key |
| ClientCtl.PortInfoMapToJson | src/client_ctl/client_application_info.hpp:51-57 | one key per port name, each holding that port's object |
| ClientCtl.MakePortInfoMap | src/client_ctl/client_application_info.hpp:62-68 | succeeds iff every entry is an object with a port description; the result has the same keys and each entry read by `make_port_info` |
| ClientCtl.ClientApplicationInfoToJson | src/client_ctl/client_application_info.hpp:94-101 | exactly the keys `display_name`, `inputs`, `outputs`, holding the name and the two port maps |
| ClientCtl.ReadClientApplicationInfo | src/client_ctl/client_application_info.hpp:106-113 | reads `display_name`, then `inputs`, then the outputs key, failing with the first key it cannot extract; on success each field comes from its key |
| ClientCtl.MakeClientApplicationInfoAsWritten | src/client_ctl/client_application_info.hpp:106-113 | as written: a description without an `output` key fails on `output` once name and inputs are read |
| ClientCtl.MakeClientApplicationInfo | src/client_ctl/client_application_info.hpp:106-113 | corrected: the output ports come from the `outputs` key the writer uses |
| ClientCtl.PortInfoRoundTrip | src/client_ctl/client_application_info.hpp:26-41 | a port description reads back as itself |
| ClientCtl.PortInfoMapRoundTrip | src/client_ctl/client_application_info.hpp:51-68 | a port map reads back as itself |
| ClientCtl.ClientApplicationInfoRoundTrip | src/client_ctl/client_application_info.hpp:94-113 | with outputs read from `outputs`, a client description reads back as itself |
| ClientCtl.ClientApplicationInfoAsWrittenNeverRoundTrips | src/client_ctl/client_application_info.hpp:94-113 | as written, no client description reads back: reading fails on the missing `output` key |
| LegacyClientCtl.LegacyPortInfoToJson | src/client_ctl/client_info.hpp:15-20 | the object has exactly the key `type`, holding the port's type |
| LegacyClientCtl.MakeLegacyPortInfo | src/client_ctl/client_info.hpp:22-27 | succeeds iff `type` holds a string, which becomes the type; otherwise names `type` |
| LegacyClientCtl.LegacyPortInfoMapToJson | src/client_ctl/client_info.hpp:31-37 | one key per port name, each holding that port's object |
| LegacyClientCtl.MakeLegacyPortInfoMap | src/client_ctl/client_info.hpp:39-45 | succeeds iff every entry is an object with a `type`; same keys, each entry read by `make_port_info` |
| LegacyClientCtl.ClientInfoToJson | src/client_ctl/client_info.hpp:54-61 | exactly the keys `display_name`, `inputs`, `outputs`, holding the name and the two port maps |
| LegacyClientCtl.ReadClientInfo | src/client_ctl/client_info.hpp:63-70 | reads `display_name`, then `inputs` and its map, then the outputs key, failing with the first thing it cannot extract; on success each field comes from its key |
| LegacyClientCtl.MakeClientInfoAsWritten | src/client_ctl/client_info.hpp:63-70 | as written: a description without an `output` key fails on `output` once name and inputs are read |
| LegacyClientCtl.MakeClientInfo | src/client_ctl/client_info.hpp:63-70 | corrected: the output ports come from `outputs`, the key the writer uses |
| LegacyClientCtl.LegacyPortInfoMapRoundTrip | src/client_ctl/client_info.hpp:15-45 | a port map reads back as itself |
| LegacyClientCtl.ClientInfoRoundTrip | src/client_ctl/client_info.hpp:54-70 | with outputs read from `outputs`, a client description reads back as itself |
| LegacyClientCtl.ClientInfoAsWrittenNeverRoundTrips | src/client_ctl/client_info.hpp:54-70 | as written, no client description reads back: reading fails on the missing `output` key |
| FileDescriptors.NullRef | src/os_services/fd/file_descriptor.hpp:45-62 | the default and `nullptr` constructors give handle -1: equal to nullptr and not valid |
| FileDescriptors.RefTo | src/os_services/fd/file_descriptor.hpp:55-82 | the `int` constructor keeps the handle; the ref is valid iff the handle is not -1, and equals nullptr iff it is |
| FileDescriptors.Convert | src/os_services/fd/file_descriptor.hpp:96-105 | only the conversions that `enabled_fd_conversions` declares (a connected socket or an eventfd to an input or output descriptor) exist; they keep the handle and hence validity, and change only the tag |
| FileDescriptors.RefEquality | src/os_services/fd/file_descriptor.hpp:71-117 | refs of one tag are equal iff their handles are; comparing with nullptr (either order) is comparing with the ref -1, the negation of `is_valid()` |
| FileDescriptors.DeleterCloses | src/os_services/fd/file_descriptor.hpp:137-141 | the deleter closes a handle iff it is not -1, and then exactly that handle |
| FileDescriptors.ResetCallsDeleterAsWritten | src/os_services/fd/file_descriptor.hpp:93-94 | as written: `reset()` tests the old ref through its `int` conversion, so the deleter runs iff the handle is not 0 |
| FileDescriptors.ResetCallsDeleter | src/os_services/fd/file_descriptor.hpp:73-76 | corrected: the deleter runs iff the old ref is not nullptr |
| FileDescriptors.ResetLeaksDescriptorZero | src/os_services/fd/file_descriptor.hpp:93-94 | an owner of descriptor 0 (valid) is reset without closing it, where the intended test would close 0 |
| FileDescriptors.ResetAsWrittenAgreesElsewhere | src/os_services/fd/file_descriptor.hpp:137-153 | for every handle except 0 the written and the intended `reset()` close the same descriptors |
| FileDescriptors.FdOwner.constructor | src/os_services/fd/file_descriptor.hpp:149-153 | the owner holds the ref and has closed nothing |
| FileDescriptors.FdOwner.Get | src/os_services/fd/file_descriptor.hpp:149-153 | `get()` of the `std::unique_ptr`: the held ref, with ownership kept |
| FileDescriptors.FdOwner.IsEmpty | src/os_services/fd/file_descriptor.hpp:73-74 | `== nullptr` on the owner compares the held ref with the null ref of its tag, so it holds exactly when the handle is -1 |
| FileDescriptors.ResetClosesAsWritten | src/os_services/fd/file_descriptor.hpp:149-153 | as written, `reset()` closes the old handle exactly when it is neither -1 nor 0 |
| FileDescriptors.FdOwner.ResetAsWritten | src/os_services/fd/file_descriptor.hpp:149-153 | as written: the owner becomes empty and the old ref reaches the deleter unless its handle is 0, so the handles it closes grow by `ResetClosesAsWritten` of the old ref |
| FileDescriptors.FdOwner.Reset | src/os_services/fd/file_descriptor.hpp:137-153 | corrected: the owner becomes empty and a valid old handle is closed exactly once |
| FileDescriptors.FdOwner.Release | src/os_services/fd/file_descriptor.hpp:149-153 | `release()` returns the held ref, empties the owner and closes nothing |
| FileDescriptors.FdOwner.Destroy | src/os_services/fd/file_descriptor.hpp:137-153 | destruction closes the held handle once if it is valid, and nothing otherwise |
| LegacyFileDescriptors.LegacyFdRef.AsBool | src/utils/file_descriptor.hpp:74-75 | `operator bool` holds iff the ref is valid |
| LegacyFileDescriptors.NullRef | src/utils/file_descriptor.hpp:27-43 | the default and `nullptr` constructors give handle -1, which is nullptr and false |
| LegacyFileDescriptors.RefTo | src/utils/file_descriptor.hpp:37-75 | the `int` constructor keeps the handle; the ref is true iff it is not nullptr |
| LegacyFileDescriptors.Convert | src/utils/file_descriptor.hpp:83-86 | a declared conversion keeps the handle |
| LegacyFileDescriptors.DeleterCloses | src/utils/file_descriptor.hpp:118-119 | the older deleter closes whatever handle it receives, -1 included |
| LegacyFileDescriptors.OwnerClosesAgree | src/utils/file_descriptor.hpp:74-131 | through the owner, the older and the newer deleter close the same handles |
| LegacyFileDescriptors.DeletersDifferOnNull | src/utils/file_descriptor.hpp:118-119 | called directly on nullptr, the older deleter closes -1 where the newer one does nothing |
| LegacyFileDescriptors.LegacyFdOwner.constructor | src/utils/file_descriptor.hpp:127-131 | the owner holds the ref and has closed nothing |
| LegacyFileDescriptors.LegacyFdOwner.IsEmpty | src/utils/file_descriptor.hpp:54-55 | `== nullptr` on the older owner holds exactly when the held ref is the null ref of its tag, handle -1 |
| LegacyFileDescriptors.LegacyFdOwner.Reset | src/utils/file_descriptor.hpp:74-131 | the owner becomes empty; the old handle is closed iff it was valid |
| LegacyFileDescriptors.LegacyFdOwner.Release | src/utils/file_descriptor.hpp:127-131 | returns the held ref, empties the owner and closes nothing |
| LegacyFileDescriptors.LegacyFdOwner.Destroy | src/utils/file_descriptor.hpp:118-131 | destruction closes the held handle iff it is valid |
| Io.FirstStop | src/os_services/error_handling/error_handling.hpp:21-22 | the first outcome that is not an interruption: every earlier one is -1 with EINTR |
| Io.DoWhileEintr | src/os_services/error_handling/error_handling.hpp:16-24 | calls at least once, repeats exactly while a call returns -1 with EINTR, and returns the first other outcome with its `errno` |
| Io.IoResult.BytesTransferred | src/os_services/io/io.hpp:43-44 | the value when it is not negative, otherwise 0 |
| Io.MakeIoResult | src/os_services/io/io.hpp:28-32 | throws "I/O operation failed" with the error iff the value is negative and the error is not EAGAIN/EWOULDBLOCK; otherwise keeps the value |
| Io.IoResultClassification | src/os_services/io/io.hpp:28-44 | a would-block result transferred nothing and came from EAGAIN/EWOULDBLOCK; a non-negative value is not would-block and is the byte count |
| Io.Transfer | src/os_services/io/io.hpp:82-129 | `read`/`write`: the first non-interrupted call's result classified with its `errno`; a call returning 0 is success with 0 bytes, not would-block |
| Io.LegacyTransfer | src/io/io.hpp:35-80 | a result other than -1 gives the untransferred rest of the buffer; -1 gives `retry_tag` iff EAGAIN/EWOULDBLOCK, and otherwise throws with the error |
| Io.LegacyRead | src/io/io.hpp:35-48 | `read`: the rest of the buffer, or `retry_tag`, or "`read` failed" with the error |
| Io.LegacyWrite | src/io/io.hpp:67-80 | `write`: the rest of the buffer, or `retry_tag`, or "`write` failed" with the error |
| Io.LegacyTransferSplits | src/io/io.hpp:39-40 | the transferred part followed by the returned rest is the whole buffer |
| Io.NewerAgreesWithLegacy | src/os_services/io/io.hpp:28-44 | on the same call outcome the newer and older helpers throw in the same cases, would-block is exactly `retry_tag`, and the older rest starts where the newer byte count ends |
| Epoll.ToEpollEvent | src/os_services/io_multiplexer/epoll_instance.test.cpp:15-28 | converts exactly the four enumerators, to EPOLLIN for the read flag plus EPOLLOUT for the write flag; any other value fails |
| Epoll.EpollEventToActivityStatus | src/os_services/io_multiplexer/epoll_instance.test.cpp:31-50 | the status is readable iff EPOLLIN is reported and writable iff EPOLLOUT is |
| Epoll.EpollConversionsInverse | src/os_services/io_multiplexer/epoll_instance.test.cpp:15-50 | the two conversions invert each other on the four enumerators and the four masks |
| Epoll.WaitForEvents | src/os_services/io_multiplexer/epoll_instance.cpp:7-16 | `epoll_wait` retried while interrupted; fails with "Failed to wait for events" and the `errno` iff the last call returned -1, otherwise yields its count |
| Epoll.EpollFdActivity.constructor | src/os_services/io_multiplexer/epoll_instance.test.cpp:83-109 | an activity keeps its entry, status and epoll descriptor, and is not yet marked for removal |
| Epoll.EpollFdActivity.GetActivityStatus | src/os_services/io_multiplexer/epoll_instance.test.cpp:107-108 | reports the status the activity was built with |
| Epoll.EpollFdActivity.StopListening | src/os_services/io_multiplexer/epoll_instance.test.cpp:104-106 | after `stop_listening` the entry is marked for removal |
| Epoll.EpollFdActivity.ItemShouldBeRemoved | src/os_services/io_multiplexer/epoll_instance.cpp:26 | `item_should_be_removed()` reports whether the entry was marked for removal, which decides whether the instance drops the listener |
| Epoll.EpollFdActivity.UpdateListeningStatus | src/os_services/io_multiplexer/epoll_instance.test.cpp:96-102 | succeeds iff the new status has an epoll mask and `epoll_ctl` succeeds; `epoll_ctl` is assumed to fail on an invalid epoll descriptor, so the update fails there as the test expects |
| Epoll.EpollFdActivity.Process | src/os_services/io_multiplexer/epoll_instance.cpp:21-27 | after the handler runs, the entry is marked for removal iff it was or the handler stopped listening |
| Epoll.Stopped | src/os_services/io_multiplexer/epoll_instance.cpp:18-31 | the ids of exactly the ready entries whose handler stopped listening |
| Epoll.Dispatches | src/os_services/io_multiplexer/epoll_instance.cpp:18-26 | one handler call per ready entry, in reported order, with the converted status and the entry's descriptor |
| Epoll.EpollInstance.constructor | src/os_services/io_multiplexer/epoll_instance.test.cpp:238-248 | a new instance has no entries, the id counter at 0 and no dispatches |
| Epoll.EpollInstance.Add | src/os_services/io_multiplexer/epoll_instance.test.cpp:242-249 | `add` files the entry under the next id, which was unused, and advances the counter by one; the first id is 0 |
| Epoll.EpollInstance.AddEach | src/os_services/io_multiplexer/epoll_instance.test.cpp:197-203 | a handler's `add` calls register each descriptor under consecutive fresh ids |
| Epoll.EpollInstance.DispatchOne | src/os_services/io_multiplexer/epoll_instance.cpp:20-30 | one handler call with the converted status and the entry's descriptor; the handler's additions are registered, then the entry is erased iff the handler stopped listening |
| Epoll.EpollInstance.DispatchAll | src/os_services/io_multiplexer/epoll_instance.cpp:18-31 | the loop makes exactly the calls of `Dispatches` and leaves the entries of `AfterDispatches` |
| Epoll.EpollInstance.WaitForAndDispatchEvents | src/os_services/io_multiplexer/epoll_instance.cpp:5-32 | waits with timeout -1; on a failed wait throws and changes nothing; otherwise dispatches every ready entry once in order and erases exactly those whose handler stopped listening |
| Epoll.NewEntriesKeys | src/os_services/io_multiplexer/epoll_instance.test.cpp:197-203 | registering `fds` creates exactly the ids `first` to `first + |fds| - 1`, each with its descriptor |
| Epoll.AfterDispatchesMember | src/os_services/io_multiplexer/epoll_instance.cpp:18-31 | after a pass, an id is registered iff it was registered before and its handler did not stop listening, or it was handed out to a handler's `add` |
| Epoll.AfterDispatchesValue | src/os_services/io_multiplexer/epoll_instance.cpp:18-31 | after a pass, an entry that was registered before is unchanged, and a new one holds the descriptor added under its id |
| Epoll.PendingEntryUntouched | src/os_services/io_multiplexer/epoll_instance.cpp:18-26 | the entry of the next ready event is still the one registered when the pass began |
| LegacyActivityMonitor.Invocations | src/os_services/fd/fd_activity_monitor.cpp:18-21 | one callback call per ready entry, in reported order, each with the status converted from its mask |
| LegacyActivityMonitor.Deletions | src/os_services/fd/fd_activity_monitor.cpp:18-23 | the callbacks deleted are exactly those whose call returned `remove_entry_and_close_fd` |
| LegacyActivityMonitor.FdActivityMonitor.constructor | src/os_services/fd/fd_activity_monitor.cpp:5-7 | a monitor starts with its callbacks and no calls or deletions |
| LegacyActivityMonitor.FdActivityMonitor.WaitForAndDispatchEvents | src/os_services/fd/fd_activity_monitor.cpp:5-24 | polls with timeout 0; a failed wait throws "Failed to wait for events" and changes nothing; otherwise every ready callback is called once in order and exactly the ones asking for removal are deleted |
| LegacyActivityMonitor.DeletionsOnce | src/os_services/fd/fd_activity_monitor.cpp:18-23 | within a pass no callback is deleted twice, and every deleted callback was registered |
| Ipc.Pipe.ReadEnd | src/os_services/ipc/pipe.hpp:35-36 | `read_end()`: the ref the read-end owner holds, ownership kept |
| Ipc.Pipe.WriteEnd | src/os_services/ipc/pipe.hpp:41-42 | `write_end()`: the ref the write-end owner holds, ownership kept |
| Ipc.Pipe.Owning | src/os_services/ipc/pipe.hpp:28-29 | the pipe owns the two descriptors `pipe` returned, as an input and an output end, and has closed nothing |
| Ipc.Pipe.CloseReadEnd | src/os_services/ipc/pipe.hpp:47-48 | `reset()` as written: the read end becomes null and its descriptor is closed unless it was null or 0; the write end is untouched |
| Ipc.Pipe.CloseWriteEnd | src/os_services/ipc/pipe.hpp:53-54 | `reset()` as written: the write end becomes null and its descriptor is closed unless it was null or 0; the read end is untouched |
| Ipc.Pipe.CloseReadEndOnExec | src/os_services/ipc/pipe.hpp:56-61 | fails iff `fcntl` fails, with "Failed to set FD_CLOEXEC on pipe read end" and the pipe unchanged; otherwise returns the read end's handle, which the pipe no longer owns and has not closed |
| Ipc.Pipe.CloseWriteEndOnExec | src/os_services/ipc/pipe.hpp:63-68 | the mirror for the write end, with its own message |
| Ipc.CreatePipe | src/os_services/ipc/pipe.hpp:21-30 | fails iff `pipe` fails, with "Failed to create pipe" and its `errno`; otherwise both ends are owned and valid |
| Ipc.SocketPair.SocketA | src/os_services/ipc/socket_pair.hpp:26-27 | `socket_a()`: the ref the owner of socket a holds, ownership kept |
| Ipc.SocketPair.SocketB | src/os_services/ipc/socket_pair.hpp:29-30 | `socket_b()`: the ref the owner of socket b holds, ownership kept |
| Ipc.SocketPair.Owning | src/os_services/ipc/socket_pair.hpp:22-23 | the pair owns the two sockets `socketpair` returned and has closed nothing |
| Ipc.SocketPair.TakeSocketA | src/os_services/ipc/socket_pair.hpp:32-33 | ownership of socket a moves to a new owner; the pair's a becomes null, nothing is closed, b is untouched |
| Ipc.SocketPair.TakeSocketB | src/os_services/ipc/socket_pair.hpp:35-36 | the mirror for socket b |
| Ipc.SocketPair.CloseSocketA | src/os_services/ipc/socket_pair.hpp:38-39 | `reset()` as written: socket a becomes null and is closed unless it was null or 0; b is untouched |
| Ipc.SocketPair.CloseSocketB | src/os_services/ipc/socket_pair.hpp:41-42 | `reset()` as written: socket b becomes null and is closed unless it was null or 0; a is untouched |
| Ipc.CreateSocketPair | src/os_services/ipc/socket_pair.hpp:15-24 | fails iff `socketpair` fails, with "Failed to create a socket pair" and its `errno`; otherwise both sockets are owned and valid |
| UnixDomainSocket.MakeAbstractSockaddrUn | src/os_services/ipc/unix_domain_socket.hpp:24-33 | a path of 106 bytes or more throws "Address to long"; otherwise the family is AF_UNIX and `sun_path` is NUL, the path, then zeros |
| UnixDomainSocket.UpToNul | src/os_services/ipc/unix_domain_socket.hpp:31 | the longest NUL-free prefix, which is followed by a NUL when shorter than the input |
| UnixDomainSocket.AbstractNameRoundTrip | src/ipc/unix_domain_socket.hpp:23-32 | the name read back from the address of a NUL-free path is that path |
| UnixDomainSocket.AbstractAddressInjective | src/os_services/ipc/unix_domain_socket.hpp:24-33 | distinct NUL-free paths that fit give distinct addresses |
| ProcMgmt.UntilNullOfTerminated | src/os_services/proc_mgmt/proc_mgmt.cpp:78-86 | a null-terminated array of strings reads back, up to its `nullptr`, as exactly those strings |
| ProcMgmt.BuildArgv | src/os_services/proc_mgmt/proc_mgmt.cpp:78-81 | `argv_out` is the path, the arguments in order, then `nullptr`, so the child sees exactly path and arguments |
| ProcMgmt.BuildEnv | src/os_services/proc_mgmt/proc_mgmt.cpp:83-86 | `env_out` is the entries in order, then `nullptr`, so the child sees exactly the environment |
| ProcMgmt.FirstFailedDup | src/os_services/proc_mgmt/proc_mgmt.cpp:38-53 | the first non-null redirection whose `dup2` fails; every earlier one is null or succeeded |
| ProcMgmt.DupsExactlyNonNull | src/os_services/proc_mgmt/proc_mgmt.cpp:38-53 | the `dup2` calls are exactly the non-null requests, each onto the descriptor it replaces, in increasing order of target |
| ProcMgmt.DoExec | src/os_services/proc_mgmt/proc_mgmt.cpp:30-62 | `do_exec` performs exactly the steps of `ExecSteps`: the redirections up to the first failure, then `close_range` and `execve`, and the failing call's `errno` written to the error stream |
| ProcMgmt.DoExecReachesExecExactlyWhenRedirected | src/os_services/proc_mgmt/proc_mgmt.cpp:38-61 | `execve` is reached iff no `dup2` fails, after exactly the non-null redirections and the close-on-exec marking; otherwise the last step reports the failing `errno` |
| ProcMgmt.Child | src/os_services/proc_mgmt/proc_mgmt.cpp:94-106 | the child waits for the parent's signal, closes the eventfd and its read end, then runs `do_exec` with the write end as error stream |
| ProcMgmt.ForkWith | src/os_services/proc_mgmt/proc_mgmt.cpp:78-88 | the fork hands the child arrays that read back as path plus arguments and as the environment |
| ProcMgmt.SpawnAsWritten | src/os_services/proc_mgmt/proc_mgmt.cpp:65-144 | as written: the result of each stage and the parent's steps, in which the released read end is closed only after the read of the child's `errno` |
| ProcMgmt.Spawn | src/os_services/proc_mgmt/proc_mgmt.cpp:65-144 | corrected: the same calls, results and order, with the released read end also closed on every throw after its release |
| ProcMgmt.SpawnParent | src/os_services/proc_mgmt/proc_mgmt.cpp:72-143 | the parent side yields `SpawnResult` and performs `ParentSteps` for either handling of the read end |
| ProcMgmt.InParent | src/os_services/proc_mgmt/proc_mgmt.cpp:108-142 | after a successful fork: closes the write end, opens the pidfd (killing and reaping on failure), signals the child, reads its `errno` and reaps and throws on a non-empty read |
| ProcMgmt.SpawnSucceedsExactlyWhenLaunched | src/os_services/proc_mgmt/proc_mgmt.cpp:88-141 | `spawn` returns iff every call succeeded and the error-pipe read delivered nothing, and it returns the pidfd opened for the child; a non-empty read throws "Failed to launch application <path>" with the child's `errno` |
| ProcMgmt.SpawnOrders | src/os_services/proc_mgmt/proc_mgmt.cpp:73-137 | the fork comes after the pipe and eventfd; the child is signalled only after its pidfd exists and the parent closed its write end; a child without a pidfd is killed then reaped; a failed launch is reaped |
| ProcMgmt.SpawnClosesOwned | src/os_services/proc_mgmt/proc_mgmt.cpp:73-141 | every descriptor the parent owns (write end, eventfd, pidfd) is closed before `spawn` ends, except the pidfd it returns |
| ProcMgmt.ReadEndLeaksAsWritten | src/os_services/proc_mgmt/proc_mgmt.cpp:74-140 | as written, once released the read end stays open exactly when `spawn` throws at the eventfd, the `fork`, the `pidfd_open` or a failing read |
| ProcMgmt.ForkFailureLeaksReadEnd | src/os_services/proc_mgmt/proc_mgmt.cpp:88-92 | concrete case: pipe and eventfd created, `fork` fails with EAGAIN: the read end (descriptor 3) is opened and never closed |
| ProcMgmt.SpawnClosesReadEnd | src/os_services/proc_mgmt/proc_mgmt.cpp:74-140 | corrected: the read end is closed whenever the pipe was created |
| LegacyProcMgmt.LegacySpawn | src/proc_mgmt/proc_mgmt.cpp:59-129 | the older parent yields `LegacySpawnResult` (pipe error, "Failed to create parent to child sync fd", "Fork failed: ", "Failed to create pidfd", "Failed to launch application <path>", or the pidfd) and performs exactly `LegacyParentSteps` |
| LegacyProcMgmt.LegacySpawnOrders | src/proc_mgmt/proc_mgmt.cpp:67-115 | the fork happens iff the pipe and eventfd were created; the child is signalled iff a pidfd was opened, and after it; a child without a pidfd is killed, then reaped |
| LegacyProcMgmt.LegacyReadsWithWriteEndOpen | src/proc_mgmt/proc_mgmt.cpp:103-126 | the older parent reads the child's `errno` while still holding its write end, which it closes only on leaving `spawn` |
| LegacyProcMgmt.LegacyLeavesFailedChild | src/proc_mgmt/proc_mgmt.cpp:117-123 | the read end is never closed; a failed launch throws without reaping the child or closing its pidfd |
| LegacyProcMgmt.LegacyChild | src/proc_mgmt/proc_mgmt.cpp:30-101 | the older child waits for the signal, closes its read end (not the eventfd) and runs `do_exec` with `close_range` also unsharing; when `do_exec` returns, a failed write of its `errno` other than would-block (EINTR included) throws out of the `noexcept` `do_exec` and ends in `std::terminate`, and otherwise the child closes the write end and exits with 127 |
| Json.GetString | src/client_ctl/client_application_info.hpp:39 | `get_field_as<std::string>`: a string exactly when the key holds one, and then that string |
| Json.GetNumber | src/json_log/item_converter.hpp:29 | `get_field_as<double>`: a number exactly when the key holds one, and then that number |
| Json.GetObject | src/client_ctl/client_application_info.hpp:110 | `get_field_as<jopp::object>`: an object exactly when the key holds one, and then that object |
| Json.Strings | src/client_ctl/startup_config.hpp:125-127 | an array with one string value per item, in order |
| Json.StringsInjective | src/client_ctl/startup_config.hpp:125-127 | different string lists give different arrays |
| StartupConfig.SocketFdToJson | src/client_ctl/startup_config.hpp:44-47 | a socket is written as its descriptor number |
| StartupConfig.HostAddressToJson | src/client_ctl/startup_config.hpp:57-68 | exactly the keys `type` ("socket_fd") and `value` (the descriptor) |
| StartupConfig.HostInfoToJson | src/client_ctl/startup_config.hpp:100-105 | exactly the key `address`, holding the address object |
| StartupConfig.StringListMapToJson | src/client_ctl/startup_config.hpp:120-154 | one key per map key (path or port name), each holding the array of its strings in their order |
| StartupConfig.LocalConfigToJson | src/client_ctl/startup_config.hpp:180-186 | exactly the keys `inputs` and `outputs`, holding the two maps |
| StartupConfig.OperationalMode | src/client_ctl/startup_config.hpp:88-95 | "connected_to_host" exactly for a host configuration and "standalone" exactly for a local one |
| StartupConfig.ConfigToJson | src/client_ctl/startup_config.hpp:196-207 | exactly the keys `operational_mode` (the alternative's name) and `parameters` (the alternative's object) |
| StartupConfig.StringListMapToJsonInjective | src/client_ctl/startup_config.hpp:120-154 | different maps give different objects: keys, lists and their order are all kept |
| StartupConfig.ConfigToJsonInjective | src/client_ctl/startup_config.hpp:57-207 | different startup configurations give different objects, so the written form loses nothing |
| LogItem.SeverityName | src/json_log/item_converter.hpp:18 | `to_string(severity)` is one of "info", "warning", "error" |
| LogItem.MakeSeverity | src/json_log/item_converter.test.cpp:66-76 | an unknown severity name gives `info` |
| LogItem.SeverityNameRoundTrip | src/json_log/item_converter.hpp:18-30 | a severity's name reads back as that severity, and distinct severities have distinct names |
| LogItem.ToJoppObject | src/json_log/item_converter.hpp:10-20 | exactly the keys `when` (the seconds), `message` (verbatim) and `severity` (its name) |
| LogItem.MakeLogItem | src/json_log/item_converter.hpp:25-33 | reads `when`, `severity`, `message` in that order; succeeds iff all three hold the right kind of value; a missing field fails with "Failed to extract mandatory field `<name>` from received log item" |
| LogItem.LogItemRoundTrip | src/json_log/writer.test.cpp:62-71 | reading back the object written for an item gives that item |
| LogItem.MakeLogItemReadsThreeKeys | src/json_log/item_converter.hpp:25-33 | objects that agree on `when`, `severity` and `message` read the same; other keys are ignored |
| Outputs.WriteCall | src/os_services/io/io.hpp:123-129 | `write` on a descriptor: retried while interrupted; a success appends exactly the transferred prefix of the data; a failure appends nothing and is a system error; a descriptor with no scripted answers takes everything |
| JoppSerializer.Serialize | src/json_log_writer/writer.hpp:71-73 | one `serialize` call: `buffer_is_full` exactly when more text remains than fits, having filled the room; otherwise the rest is written and `completed` is reported iff the object is legal |
| JsonLogWriter.TextsAppend | src/json_log_writer/writer.hpp:44-45 | queuing an object appends its text to the text still to be written |
| JsonLogWriter.FlushStop | src/json_log_writer/writer.hpp:121-131 | a write stops the flush unless it transferred bytes; exceptions propagate; as written a would-block write is never reported as `output_is_blocked` |
| JsonLogWriter.FlushSendsPrefix | src/json_log_writer/writer.cpp:58-86 | a flush sends the characters in order and stops with a prefix sent; it returns `keep_going` exactly when all were sent; as written never `output_is_blocked`; failures are system errors |
| JsonLogWriter.FlushPassMeetsSpec | src/json_log_writer/writer.hpp:114-134 | one `write` of the flush loop keeps the flush specification: a write that stops the loop ends the flush with its result and nothing more sent, otherwise the loop goes on from the characters it has sent |
| JsonLogWriter.FlushLeaves | src/json_log_writer/writer.cpp:58-86 | after `keep_going` the output has received all the characters; after a stop on a closed or blocked output, what it received followed by the characters not sent is what it had plus all the characters |
| JsonLogWriter.SerializingKeepsPending | src/json_log_writer/writer.cpp:18-20 | moving the next k characters of the front object's text from the serializer into the buffer leaves the text still to be sent unchanged |
| JsonLogWriter.StartingKeepsPending | src/json_log_writer/writer.cpp:8-14 | starting a serializer on the front object leaves the text still to be sent unchanged |
| JsonLogWriter.CompletingKeepsPending | src/json_log_writer/writer.cpp:36-38 | dropping the front object and its serializer once its whole text is in the buffer leaves the text still to be sent unchanged |
| JsonLogWriter.WouldBlockReportedAsClosed | src/json_log_writer/writer.hpp:121-131 | a write that would block sends nothing; as written the flush reports `output_is_closed`, corrected `output_is_blocked` |
| JsonLogWriter.ClosedOnlyOnZeroWrite | src/json_log_writer/writer.cpp:69-73 | corrected, a write returning 0 reports `output_is_closed` with nothing sent |
| JsonLogWriter.Writer.constructor | src/json_log_writer/writer.hpp:38-42 | a writer starts with an empty queue, no serializer, both cursors at the buffer start, and nothing pending |
| JsonLogWriter.Writer.Write | src/json_log_writer/writer.hpp:44-45 | `write` only appends the item's object to the queue; cursors, serializer and descriptor are untouched |
| JsonLogWriter.Writer.Flush | src/json_log_writer/writer.hpp:110-138 | sends the characters between the cursors; a full drain returns `keep_going` with the read cursor at the start; a closed or blocked output leaves it after what was sent; an exception leaves it unchanged |
| JsonLogWriter.Writer.StartSerializer | src/json_log_writer/writer.hpp:61-67 | a serializer starts on the front object with nothing written; nothing else changes |
| JsonLogWriter.Writer.SerializeInto | src/json_log_writer/writer.cpp:18-20 | one `serialize` call into the room after the write cursor: the text it writes moves from unserialized to the buffer and the write cursor moves past it |
| JsonLogWriter.Writer.CopyInto | src/json_log_writer/writer.cpp:19 | the characters land at the write cursor and nothing before it changes |
| JsonLogWriter.Writer.CompleteFront | src/json_log_writer/writer.cpp:36-38 | on `completed`, the serializer is reset and the front object leaves the queue; pending text is unchanged |
| JsonLogWriter.Writer.FlushAndRewind | src/json_log_writer/writer.cpp:24-33 | what a flush sends plus what stays pending is what was pending; after `keep_going` both cursors are at the buffer start |
| JsonLogWriter.Writer.PumpData | src/json_log_writer/writer.cpp:5-55 | with nothing to do returns `keep_going` and touches nothing; objects leave the queue from the front only; sent plus pending is conserved; `keep_going` means the queue is empty and everything was sent; "Invalid jopp object" only for an illegal front object; as written at most one object leaves per call before the undefined serialize |
| JsonLogWriter.Writer.HandleEvent | src/json_log_writer/writer.hpp:47-57 | pumps iff the status allows writing; asks to stop listening exactly when the pump returned `output_is_closed`; exceptions propagate |
| JsonLogWriter.Writer.PumpOnce | src/json_log_writer/writer.cpp:16-52 | one loop pass: pops at most the front object; goes on only when everything was sent, with the cursors reset and less left to do; as written, a missing serializer is the undefined case |
| JsonLogWriter.Writer.PumpLoop | src/json_log_writer/writer.cpp:16-54 | the loop of `pump_data`: objects leave the queue from the front only; on success what the output received plus what is pending is what was pending before; `keep_going` leaves no object, no serializer and nothing pending; an illegal object throws "Invalid jopp object" with that object still at the front; as written at most one object is dropped before the undefined serialize |
| JsonLogWriter.Writer.WriteOut | src/json_log_writer/writer.cpp:60-82 | the flush loop's outcome is `FlushOutcome` of the characters between the cursors |
| JsonLog.DrainSendsInOrder | src/json_log/writer.cpp:17-24 | the inner loop sends the chunk in order: all of it, or, when a write throws, a system error after a prefix of it |
| JsonLog.DrainPassMeetsSpec | src/json_log/writer.cpp:17-24 | one `write` of the inner loop followed by a drain of the rest that meets the specification meets it for the whole chunk, and a failed `write` ends the drain with its error |
| JsonLog.PassMeetsSpec | src/json_log/writer.cpp:13-27 | one pass of the outer loop keeps the specification: its chunk is sent, a failed drain ends the write with that error, `completed` ends it written, a refused object ends it refused, and `buffer_is_full` goes on from where the serializer stopped |
| JsonLog.WriteFromMeetsSpec | src/json_log/writer.cpp:8-27 | every `write`, from any point of the object's text and with any buffer size above zero, meets the specification |
| JsonLog.WrittenSendsText | src/json_log/writer.cpp:8-27 | a `write` that returns has sent the whole text of a legal object, in order |
| JsonLog.RefusedSendsText | src/json_log/writer.cpp:13-27 | a refused object is an illegal one, after all the text the serializer produced was sent |
| JsonLog.FailedSendsPrefix | src/json_log/writer.cpp:20 | a throwing `write` is a system error after a prefix of the object's text was sent |
| JsonLog.SentPrefixWithin | src/json_log/writer.cpp:16-24 | a prefix of the start of a text is a prefix of the text |
| JsonLog.SentPrefixAfter | src/json_log/writer.cpp:13-27 | a whole chunk followed by a prefix of the rest is a prefix of the concatenation |
| JsonLog.AcceptingOutputTakesWholeObject | src/json_log/writer.cpp:8-27 | on a descriptor that accepts everything, a legal object is written whole, whatever the buffer size |
| JsonLog.DrainToAccepting | src/json_log/writer.cpp:17-24 | a descriptor that accepts everything takes the chunk in one pass |
| JsonLog.WritesBackToBack | src/json_log/writer.cpp:8-27 | items written one after another appear on the descriptor as their texts back to back, in order |
| JsonLog.Writer.constructor | src/json_log/writer.hpp:16-23 | a writer owns a fresh buffer of `buffer_size` characters and the given descriptor, by default 65536 and standard error |
| JsonLog.Writer.Write | src/json_log/writer.cpp:8-28 | `write` ends as `WriteFrom` of the item's object from the start, with the whole buffer as the chunk room |
| JsonLog.Writer.CopyChunk | src/json_log/writer.cpp:15 | the serializer's chunk occupies the start of the buffer |
| JsonLog.Writer.DrainChunk | src/json_log/writer.cpp:17-24 | the inner write loop computes `Drain` of the chunk |
| JsonLogReader.RouteOneCall | src/json_log/reader.cpp:28-46 | each completed value gives the receiver exactly one call and never a parse error; it is `consume` iff the value is an object that makes a log item; a log item's own object is consumed as that item |
| JsonLogReader.ParseErrorOnlyWhenJammed | src/json_log/reader.cpp:12-56 | `parse_buffer` ends jammed exactly when its last receiver call is a parse error, and no earlier call is one |
| JsonLogReader.StateLeftIsPendingTail | src/json_log/reader.cpp:12-56 | a chunk that gives the receiver no call never jams and carries the given state, which reaches `more_data_needed` on the whole chunk, over to the next chunk; after completed values, a chunk that did not jam leaves the state a fresh parser reaches on a non-empty suffix of it |
| JsonLogReader.ReadCall | src/os_services/io/io.hpp:82-95 | a `read` that returns bytes uses up some of what the descriptor has to give, and never more than the buffer holds |
| JsonLogReader.EndOfInputStops | src/json_log/reader.cpp:75-82 | at the end of input the reader stops listening, keeps its state, and reports `more_data_needed` exactly when the parser is inside a value |
| JsonLogReader.WouldBlockKeepsListening | src/json_log/reader.cpp:72-73 | a read that would block returns with no receiver call, still listening, the state kept |
| JsonLogReader.JammedReadsNoFurther | src/json_log/reader.cpp:84-98 | a chunk that jams the parser stops listening after that chunk's calls, and nothing further is read |
| JsonLogReader.ParseErrorEndsListening | src/json_log/reader.cpp:59-100 | over a whole `handle_event` a parse error is the receiver's last call and comes only with stopping listening; an exception never stops listening |
| JsonLogReader.Reader.constructor | src/json_log/reader.hpp:19-22 | a reader starts with a fresh buffer of `buffer_size` bytes and, as the tests construct it, the parser's initial state |
| JsonLogReader.Reader.HandleEvent | src/json_log/reader.cpp:59-100 | nothing at all happens unless the event allows reading; otherwise the calls, the state left, stop-listening and the exception are those of `ReadLoop` |
| JsonLogReader.Reader.CopyIn | src/json_log/reader.cpp:69-70 | the bytes read occupy the start of the input buffer |
| JsonLogReader.Reader.ParseBufferLoop | src/json_log/reader.cpp:12-56 | the `parse_buffer` loop computes `ParseBuffer` of the chunk |
| Segments.FlatSet.constructor | src/utils/utils.hpp:127-130 | a `flat_set` holds its own sorted copy of the values it is given, as a permutation of them |
| Segments.FlatSet.View | src/utils/utils.hpp:132-133 | the span of a `flat_set` is its values, in ascending order |
| Segments.SortAscending | src/utils/utils.hpp:130 | `std::ranges::sort`: the array ends sorted and a permutation of what it held |
| Segments.FirstAtLeast | src/utils/utils.hpp:164-169 | `find_if(val >= start_at)`: the first position from `from` whose value reaches the bound, all earlier ones below it |
| Segments.FirstAbove | src/utils/utils.hpp:171-177 | `find_if(val > stop_at)`: the first position from `from` whose value exceeds the bound, all earlier ones at most it |
| Segments.Trim | src/utils/utils.hpp:161-183 | on sorted values, every value kept lies within the boundaries |
| Segments.TrimKeepsValuesInRange | src/utils/utils.hpp:161-183 | on sorted values, every value within the boundaries is kept |
| Segments.TrimStrictlyIncreasing | src/utils/utils.hpp:179-182 | trimming a strictly increasing set gives a contiguous part of it, still strictly increasing |
| Segments.SegmentLoop | src/utils/utils.hpp:207-222 | the loop either returns early having emitted exactly the maximal gaps, or ends with the loop invariant: what it emitted, followed by the gaps above `first`, is the maximal gaps |
| Segments.PassSplitPoint | src/utils/utils.hpp:211-221 | passing a split point emits the gap below it and keeps the invariant; at the upper boundary that completes the maximal gaps |
| Segments.AfterLoop | src/utils/utils.hpp:224-228 | after the loop, the gap below the last split point (unless the first one is the lower boundary) and the range above it complete the maximal gaps |
| Segments.EmitAfterLoop | src/utils/utils.hpp:224-228 | the two statements after the loop emit the range from the given lower bound to just below the last split point unless the first split point is the lower boundary, then the range above the last split point, each only when not empty |
| Segments.AsWrittenAfterLoop | src/utils/utils.hpp:224-228 | as written, with `first + 1` as the lower bound, what the loop emitted followed by the two ranges after it is `AsWrittenSegments` |
| Segments.CorrectedAfterLoop | src/utils/utils.hpp:224-228 | with the lower bound `first + 1` only when the loop passed a split point, what the loop emitted followed by the two ranges after it is the maximal gaps |
| Segments.ForEachDisjointSegment | src/utils/utils.hpp:194-229 | as written: the callback's ranges, in call order, are `AsWrittenSegments` of the trimmed split points |
| Segments.ForEachDisjointSegmentCorrected | src/utils/utils.hpp:194-229 | corrected: the callback's ranges are the maximal gaps between the trimmed split points |
| Segments.GapsFromShape | src/utils/utils.hpp:185-193 | the reference gaps are non-empty, lie within the window, hold no split point, and have a value between consecutive ones |
| Segments.GapsFromCovers | src/utils/utils.hpp:185-193 | the reference gaps cover exactly the values of the window that are not split points |
| Segments.GapsFromCoversGap | src/utils/utils.hpp:185-193 | every value of the window that is not a split point lies in one of the reference gaps |
| Segments.GapsFromWithin | src/utils/utils.hpp:185-193 | the reference gaps are non-empty, lie within the window, and hold no split point |
| Segments.GapsFromSeparated | src/utils/utils.hpp:185-193 | the reference gaps come in increasing order with at least one value between consecutive ones |
| Segments.AsWrittenSegmentsShape | src/utils/utils.hpp:194-229 | as written, every emitted range is non-empty, within the boundaries, free of split points, and in increasing separated order |
| Segments.AsWrittenSegmentsCover | src/utils/utils.hpp:204-222 | as written, with two or more split points or one at the lower boundary, the ranges cover exactly the values within the boundaries that are not split points; with none nothing is emitted |
| Segments.AsWrittenSegmentsMissStart | src/utils/utils.hpp:224-225 | as written, a single split point above the lower boundary leaves the lower boundary out of every range although it is no split point |
| Segments.AsWrittenSegmentsExample | src/utils/utils.hpp:224-228 | [0, 10] split at 5 gives [1, 4] and [6, 10] as written, where the maximal gaps are [0, 4] and [6, 10] |
| Segments.CorrectedSegmentsCover | src/utils/utils.hpp:194-229 | corrected, whenever a split point lies within the boundaries the ranges are separated, within them, free of split points, and cover exactly the other values |
| Segments.DecimalRoundTrip | src/utils/utils.hpp:155-159 | the decimal text of a number reads back as that number |
| Segments.RangeToString | src/utils/utils.hpp:155-159 | `to_string` is bracketed and four characters longer than the two bounds' digits |
| Segments.RangeToStringParts | src/utils/utils.hpp:155-159 | the text holds the start's digits after the bracket and the stop's between ", " and "]" |
| Segments.RangeToStringInjective | src/utils/utils.hpp:155-159 | different ranges never print the same text |
| Segments.SinkLast | src/utils/utils.hpp:130 | one insertion step of the sort: the next value joins the sorted prefix, the array stays a permutation |
| Epoll.EpollInstance.DispatchNext | src/os_services/io_multiplexer/epoll_instance.cpp:18-31 | one pass of the dispatch loop: the next ready entry is dispatched and ids, entries and dispatches advance by one step of the reference |

## Left out

- System calls, the clock, randomness and `errno` are parameters. Each call's outcome is given, and the model does not decide it.
- jopp, the JSON library, is not part of this model. Its serializer is given per object as the text it produces and whether the object is legal. Its parser is an abstract step function over an abstract state. JSON objects are finite maps.
- `when` in a log item is a whole number of seconds. The `double` conversion and floating point are left out.
- `log::item`, `to_string(severity)` and `make_severity` are not part of this model. They are given by the three severities and their names.
- `make_log_item` returns the tests' expected error message instead of throwing, as the reader uses it.
- `epoll_instance.hpp` is not part of this model. The status and event-mask conversions are modelled from the four cases its test expects (src/os_services/io_multiplexer/epoll_instance.test.cpp:31-50).
- `Epoll.EpollEventToActivityStatus` is defined for every mask, and for masks other than those four cases its result is an assumption: only the EPOLLIN and EPOLLOUT bits are looked at, so a mask of EPOLLHUP or EPOLLERR alone gives `none`.
- `Epoll.EpollInstance.Add`: the listening status passed to `epoll_ctl` is not modelled. It requires the id counter below 2^64 - 1, because a wrapped counter would reuse ids.
- `Epoll.EpollFdActivity.UpdateListeningStatus`: its `epoll_ctl` is an abstract outcome. That the call fails when the epoll descriptor is not valid (EBADF) is assumed through a `requires` on that outcome, not derived.
- `ProcMgmt.Child`: the eventfd's `reset()` (src/os_services/proc_mgmt/proc_mgmt.cpp:99) and `close_write_end()` (proc_mgmt.cpp:103) are modelled with the corrected reset, which closes any valid handle. As written a handle of 0 would stay open (`FileDescriptors.ResetLeaksDescriptorZero`); everywhere else the two agree (`FileDescriptors.ResetAsWrittenAgreesElsewhere`).
- `ProcMgmt.InParent`: the parent's `close_write_end()` (proc_mgmt.cpp:109) is modelled with the corrected reset, so a write end of 0 is closed where as written it would stay open.
- `ProcMgmt.SpawnParent`: the same corrected `close_write_end()` as `ProcMgmt.InParent`.
- `ProcMgmt.SpawnAsWritten`: it is as written only in its handling of the released read end; its parent's `close_write_end()` is the corrected reset, which closes a write end of 0 that as written would stay open.
- `ProcMgmt.Spawn`: the same corrected `close_write_end()`; in the child, see `ProcMgmt.Child`.
- Concurrency, signals and the real process are left out. The child's side of spawn is the list of calls it makes, and the parent sees only the outcomes it is given.
- `ProcMgmt.SpawnClosesOwned` and `ProcMgmt.SpawnClosesReadEnd` state that each descriptor is closed, by membership in the trace. They do not state that it is closed exactly once.
- `LegacyProcMgmt.LegacySpawn` models the read of the child's `errno` by its byte count. The throw on a failing read is left out.
- The older `src/ipc/pipe.hpp` is not part of this model. A failure to create the older pipe is an input error.
- `get_peer_credentials`, the eventfd wrapper and the other socket wrappers are not part of this model.
- `event_handler_id_hash` (src/os_services/fd/activity_monitor.hpp:64-68) is not part of this model. It hands the id's value to `std::hash<uint64_t>`, which is not part of this model either.
- Paths are their string form.
- Code that appears twice in the source is modelled once: `do_while_eintr` (error_handling.hpp and io.hpp), `to_jopp_object` (json_log_writer/writer.hpp and json_log/item_converter.hpp), `make_abstract_sockaddr_un` (both revisions), and the activity status (activity_event.hpp and activity_monitor.hpp).
- `JsonLogReader.Reader.constructor` takes the reader's name and a parser, and starts from the parser's initial state, as the tests construct the reader (src/json_log/reader.test.cpp:68). The header's constructor (src/json_log/reader.hpp:19-22) takes only the buffer size and never allocates `m_state`, which stays a null `std::unique_ptr` (reader.hpp:41) that reader.cpp:77 and :86-87 dereference on the first event. The receiver is not an object here.
- `JsonLog.Writer.Write` requires a buffer of at least one character, because a zero-size buffer never lets the serializer finish. When the serializer refuses a string it stops with `Refused`; the source calls `serialize` again.
- `JsonLog.Writer.Write` and `JsonLog.Drain` end because the descriptor model answers from a finite list and accepts everything once the list is used up. The source's inner loop (src/json_log/writer.cpp:17-24) retries a write that transfers nothing (EAGAIN) forever, and the model does not capture that non-termination.
- `JsonLogWriter.Writer.PumpData`: with no serializer and an empty queue, `pump_data` returns `keep_going` at once and flushes nothing (src/json_log_writer/writer.cpp:8-11), and so does the model (its ensures for that case keeps `Pending()`). So when a flush stops blocked after the last object completed, which only the corrected flush reports, the rest of that object's text stays in the buffer until another item is written. The model does not promise that pending bytes are ever sent.
- `JsonLogWriter.Writer.PumpData`: as written, the undefined serialize through an empty `std::optional` is reported by `undefined`, and the model stops there.

## Findings

| source | as written | input that shows it | evidently intended | confidence | as-written member | corrected member |
|---|---|---|---|---|---|---|
| src/os_services/fd/file_descriptor.hpp:149-153 | `reset()` hands the old ref to the deleter when its `int` conversion is non-zero | an owner of descriptor 0 is reset and 0 stays open (`FileDescriptors.ResetLeaksDescriptorZero`) | close the old descriptor whenever it is not nullptr (-1) | medium, not executed | FileDescriptors.FdOwner.ResetAsWritten | FileDescriptors.FdOwner.Reset |
| src/client_ctl/client_application_info.hpp:106-113 | reads the output ports from the key `output` | every description written by `to_jopp_object`, which uses `outputs`, fails to read back (`ClientCtl.ClientApplicationInfoAsWrittenNeverRoundTrips`) | read `outputs`, so that reading a written description gives it back | high, not executed | ClientCtl.MakeClientApplicationInfoAsWritten | ClientCtl.MakeClientApplicationInfo |
| src/client_ctl/client_info.hpp:63-70 | reads the output ports from the key `output` | every written description fails to read back (`LegacyClientCtl.ClientInfoAsWrittenNeverRoundTrips`) | read `outputs` | high, not executed | LegacyClientCtl.MakeClientInfoAsWritten | LegacyClientCtl.MakeClientInfo |
| src/os_services/proc_mgmt/proc_mgmt.cpp:74-140 | the released read end of the error pipe is closed only after the read of the child's `errno` | `fork` fails with EAGAIN after the pipe and eventfd were made: descriptor 3 stays open (`ProcMgmt.ForkFailureLeaksReadEnd`) | close the read end on every path after its release | medium, not executed | ProcMgmt.SpawnAsWritten | ProcMgmt.Spawn |
| src/json_log_writer/writer.hpp:121-131 | `flush` tests "no bytes transferred" before "would have blocked", and a blocked write transfers 0 bytes | a write answered with EAGAIN makes `flush` return `output_is_closed`, so `handle_event` stops listening (`JsonLogWriter.WouldBlockReportedAsClosed`) | return `output_is_blocked` for a blocked write and `output_is_closed` only for a write of 0 bytes | high, not executed | JsonLogWriter.FlushStop | JsonLogWriter.ClosedOnlyOnZeroWrite |
| src/json_log_writer/writer.hpp:89-102 | after an object completes, the serializer is reset and the loop goes on without starting one for the next object | two items queued and an output that takes everything: the second pass serializes through an empty `std::optional` | start a serializer on the next queued object | high, not executed | JsonLogWriter.Writer.PumpOnce | JsonLogWriter.Writer.PumpOnce (the `asWritten` false branch, which `JsonLogWriter.Writer.PumpData` reaches through `PumpLoop`) |
| src/utils/utils.hpp:224-225 | after the loop, the range below the last split point starts at `first + 1` even when the loop passed no split point | [0, 10] split at 5 gives [1, 4] and [6, 10], so 0 is in no range (`Segments.AsWrittenSegmentsExample`) | start at `first` when no split point was passed, giving the maximal gaps [0, 4] and [6, 10] | high, not executed | Segments.ForEachDisjointSegment | Segments.ForEachDisjointSegmentCorrected |
