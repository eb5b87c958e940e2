# Address-space core of a RISC-V instruction-set simulator, in Dafny

This project models the part of the simulator that owns the guest's
physical address space, plus two CSR read-modify-write instructions:

- **Device bus** (`bus_t`, module `DeviceBus`, with `OrderedMap`): an ordered map from base
  address to device. An address goes to the device whose base is the
  greatest base at or below it, at offset `addr - base`. The lookup fails
  when the bus is empty or every base is above the address. The
  `std::map` is modelled by its in-order contents, a strictly sorted
  sequence of entries. `upper_bound` is `OrderedMap.UpperBound` and
  `operator[]` assignment is `OrderedMap.Insert`. Both are proved against
  the abstract map `OrderedMap.ToMap`.
- **Sparse memory** (`mem_t`, module `SparseMemory`): a class with the fixed size `sz` and
  `sparse_memory_map`, that is page number to a 4096-byte page. Pages are
  allocated zero-filled on first touch. `ByteAt` is the byte an address
  reads, with 0 for an absent page. `LoadStore` is the overflow-safe
  bounds check followed by the page-chunk loop. Its contract gives the
  byte-exact effect, the set of pages allocated, and that a load changes
  no byte. The ghost history `stored` and the invariant `Valid` state that
  bytes never stored read as zero.
- **MMIO plugins** (module `MmioPlugin`): the registry only grows and rejects a duplicate
  name. A plugin device forwards loads and stores to its plugin verbatim.
  Callbacks are function values over the plugin's instance state `S`.
  Constructing a device with an unknown name is its own error.
- **File plugin** (module `FilePlugin`): the flag loop of
  `file_plugin_alloc` (`[w...:]filename`) is proved equal to a
  declarative statement of the accepted syntax. `FileData` holds the
  mapped file as an array, with load and store on it.
- **CSR instructions** (module `CsrInstructions`): `csrrs` and `csrrci` on a hart with a CSR map
  and a register file. `validate_csr` and `sext_xlen` are function
  parameters. A ghost access trace records the order of the calls:
  validate, then exactly one read, then at most one write.

Addresses and sizes (`reg_t`, `size_t`) are the integer subset type
`U64`; the one place where 64-bit wrap-around matters, `addr + len` in
`load_store`, is written out (`WrapAdd`). CSR and register values are
`bv64`. `addr >> PGSHIFT` is written as `addr / PGSIZE`.

## Model

| member | source | states |
|---|---|---|
| `Types.WrapAdd` | riscv/devices.cc:115 | the `reg_t` sum is `(a + b) mod 2^64`, and it is below `a` exactly when the true sum reaches 2^64 |
| `OrderedMap.UpperBound` | riscv/devices.cc:25 | the index of the first entry whose key exceeds `k`: all earlier keys are `<= k`, all later ones `> k` |
| `OrderedMap.InsertSorted` | riscv/devices.cc:11-18 | `devices[addr] = dev` keeps keys strictly ascending and adds no entry other than `(addr, dev)` |
| `OrderedMap.InsertToMap` | riscv/devices.cc:18 | inserting into the ordered contents is map update: the entry at `addr` is replaced or added, every other entry is unchanged |
| `OrderedMap.FloorOfUpperBound` | riscv/devices.cc:25-34 | `upper_bound` at the first position means no key is `<= a`; otherwise the entry one step back has the greatest key `<= a` |
| `DeviceBus.Bus.AddDevice` | riscv/devices.cc:11-19 | the bus map afterwards is the old map with `addr` bound to `dev`; the sorted invariant is kept |
| `DeviceBus.Bus.FindDevice` | riscv/devices.cc:49-58 | `(0, NULL)` exactly when no base is `<= addr` (empty bus included); otherwise the greatest base `<= addr` and the device registered there |
| `DeviceBus.Bus.Load` | riscv/devices.cc:21-36 | fails with `bytes` untouched when no base is `<= addr`; otherwise returns the owning device's result for offset `addr - base` unchanged |
| `DeviceBus.Bus.Store` | riscv/devices.cc:38-47 | fails when no base is `<= addr`; otherwise returns the owning device's store result for offset `addr - base` unchanged |
| `MmioPlugin.Registry.Register` | riscv/devices.cc:70-77 | a name already present throws and leaves the registry as it was; a new name is added; existing entries never change |
| `MmioPlugin.NewPluginDevice` | riscv/devices.cc:79-83 | an unknown name is the `UnknownPlugin` error; otherwise the device keeps the registered plugin and the instance its `alloc` returns for `args` |
| `MmioPlugin.PluginDevice.Load` | riscv/devices.cc:90-93 | the plugin's load callback on the stored instance, verbatim |
| `MmioPlugin.PluginDevice.Store` | riscv/devices.cc:95-98 | the plugin's store callback on the stored instance, verbatim, with the instance state it leaves |
| `SparseMemory.Mem.New` | riscv/devices.cc:100-105 | construction fails exactly when the size is 0 or not a multiple of 4 KiB; a new memory has no pages and reads zero everywhere |
| `SparseMemory.InBounds` | riscv/devices.cc:115-116 | the wrap-aware check accepts exactly the accesses with `addr + len <= sz` |
| `SparseMemory.ChunkLen` | riscv/devices.cc:119 | each chunk is at least 1 byte when bytes remain, at most the remaining length, stays within the current page, and ends at a page boundary unless it is the last |
| `SparseMemory.Allocate` | riscv/devices.cc:134-145 | a zero-filled page is added for `ppn` only if none exists; existing pages are untouched and no address reads differently |
| `SparseMemory.Mem.Contents` | riscv/devices.cc:134-145 | the map afterwards is `Allocate(old map, addr / PGSIZE)` and the result is `addr % PGSIZE` |
| `SparseMemory.SpannedStep` | riscv/devices.cc:119-128 | one chunk adds exactly one page, the page of its first byte, to the pages touched so far |
| `SparseMemory.WriteChunk` | riscv/devices.cc:122 | copying into one page changes exactly the chunk's addresses to the data and keeps the set of pages |
| `SparseMemory.ReadChunk` | riscv/devices.cc:124 | copying out of one page yields exactly the bytes the chunk's addresses hold |
| `SparseMemory.Mem.MoveChunk` | riscv/devices.cc:121-124 | a store replaces the page map by `WriteChunk` of the buffer's chunk; a load fills exactly `bytes[pos..pos+n]` with `ReadChunk` |
| `SparseMemory.ProgressStep` | riscv/devices.cc:118-129 | each loop iteration extends the copied prefix by one chunk, in ascending address order, allocating only that chunk's page |
| `SparseMemory.StoreKeepsZeros` | riscv/devices.cc:138-141 | after a store, addresses covered by no store still read zero |
| `SparseMemory.Mem.LoadStore` | riscv/devices.cc:113-132 | returns false with no effect unless `addr + len <= sz`; a store writes exactly `[addr, addr+len)` from the buffer; a load fills the buffer from those addresses and changes no byte; either way exactly the spanned pages are added |
| `SparseMemory.StoreThenLoad` | riscv/devices.cc:113-132 | a store then a load of the same in-bounds range, page-spanning or not, returns the stored bytes |
| `SparseMemory.LoadFresh` | riscv/devices.cc:100-145 | on a fresh memory of valid size every in-bounds load returns zeros, and every other load fails |
| `FilePlugin.IndexOf` | riscv/devices.cc:156 | `strchr`: the first occurrence of the character |
| `FilePlugin.ParseArgs` | riscv/devices.cc:155-171 | with no `:` the whole argument is the read-only filename; otherwise the prefix before the first `:` must be all `w` (else NULL), and a nonempty prefix makes the file writable |
| `FilePlugin.Alloc` | riscv/devices.cc:155-205 | NULL for a malformed argument, a file that cannot be opened or mapped, or an empty file; otherwise data for the mapped contents with the parsed writable flag |
| `FilePlugin.FileData.Load` | riscv/devices.cc:207-214 | fails, buffer untouched, unless the access lies in the file; otherwise the buffer's first `width` bytes are the file's bytes at `offset` |
| `FilePlugin.FileData.Store` | riscv/devices.cc:216-223 | fails, file untouched, when read-only or out of range; otherwise exactly `[offset, offset+width)` of the file takes the buffer's bytes |
| `FilePlugin.AsWrittenAdmitsOverrun` | riscv/devices.cc:209-221 | the guard as written, `AcceptsAsWritten` (only `offset >= length` is rejected), lets an 8-byte access at offset 4095 of a 4096-byte file through, though it ends past the file |
| `FilePlugin.CorrectedRefinesAsWritten` | riscv/devices.cc:209-221 | the whole-access check implies the written one, and the two differ only on accesses that overrun the file |
| `CsrInstructions.SetBits` | riscv/insns/csrrs.h:5 | the new value has every mask bit set and every other bit as before |
| `CsrInstructions.SetBitsOnlySets` | riscv/insns/csrrs.h:5 | csrrs only sets bits: `old & ~new == 0` |
| `CsrInstructions.SetBitsZeroMask` | riscv/insns/csrrs.h:1-5 | with `x[rs1] == 0` the value written is the old value |
| `CsrInstructions.ClearBits` | riscv/insns/csrrci.h:5 | the new value has every mask bit clear and every other bit as before |
| `CsrInstructions.ClearBitsOnlyClears` | riscv/insns/csrrci.h:5 | csrrci only clears bits: `new & ~old == 0` |
| `CsrInstructions.WriteReg` | riscv/insns/csrrs.h:7 | `WRITE_RD` sets register `rd` and no other; x0 stays zero |
| `CsrInstructions.Hart.ValidateCsr` | riscv/insns/csrrs.h:2 | the given `validate_csr` result, recorded as the access `Validate(csr, write)` |
| `CsrInstructions.Hart.GetCsr` | riscv/insns/csrrs.h:3 | the CSR's value, or a trap for an absent CSR, recorded as one `Get` access |
| `CsrInstructions.Hart.PutCsr` | riscv/insns/csrrs.h:5 | updates exactly that CSR, recorded as one `Put` access |
| `CsrInstructions.Hart.WriteRd` | riscv/insns/csrrs.h:7 | the register file becomes `WriteReg(old, rd, value)` |
| `CsrInstructions.Hart.Csrrs` | riscv/insns/csrrs.h:1-7 | write iff the rs1 field is nonzero; validate, then one read; when writing the CSR becomes `old \| x[rs1]`, otherwise it is unchanged; rd gets `sext_xlen(old)`; a trap changes nothing |
| `CsrInstructions.Hart.Csrrci` | riscv/insns/csrrci.h:1-7 | write iff the immediate is nonzero; validate, then one read; when writing the CSR becomes `old & ~zimm`, otherwise it is unchanged; rd gets `sext_xlen(old)`; a trap changes nothing |

## Left out

- Host I/O in `file_plugin_alloc` (`open`, `lseek`, `mmap`, `close`, `malloc`): one parameter function, `openAndMap`, is used instead. It gives the file's contents, or `None` when any of those steps fails. The source compares `mmap`'s result with `NULL`, not `MAP_FAILED`, and never checks `lseek` for an error. Neither is captured.
- `file_plugin_dealloc`, the `mmio_plugin_device_t` destructor, `~mem_t`: they only release host resources, and the model has no resource model. For the same reason the descriptor has no `dealloc` callback.
- `init_file_plugin` self-registration: not modelled. The file plugin's instance is a heap object modelled as a class, while registry callbacks are functions over values, so the file plugin is not placed into a `Registry`.
- `calloc` failure in `contents` (`std::bad_alloc`): this fatal host condition is not modelled.
- Pointer arithmetic, `memcpy`, `memmove`: modelled on arrays and sequences of bytes. A page is a `seq` held in the map, not a separately allocated buffer.
- `MmioPlugin.PluginDevice.Load`: a plugin's load callback cannot change its instance state. Only a store returns a new state.
- `DeviceBus.Bus.Store`: it returns what the device returns. The device's own state change belongs to the device (see `SparseMemory.Mem.LoadStore` and `FilePlugin.FileData.Store`).
- `DeviceBus.Bus.Load`: a pure function of the bus, so a forwarded load has no device-side effect here. The source's devices can have one: `mem_t::load_store` allocates pages on a load, and a plugin's load may change its instance. `SparseMemory.Mem.LoadStore` states the page allocation itself.
- `OrderedMap.UpperBound`: defined as a recursive scan. The logarithmic cost of the tree lookup is not modelled, only its result.
- Side effects inside `get_csr`, `put_csr` and `validate_csr`: not modelled. `validate_csr` is a parameter. `get_csr` traps only for a CSR the hart lacks. Its permission checks are part of the given `validate`.
- `serialize()`, decoding of `insn` (the fields are given as `Insn`), `sext_xlen` (a parameter): outside the instruction bodies.
- The register file code is not part of this model. `WriteReg` assumes the RISC-V rule that writes to x0 are discarded.
- Multi-hart sharing and locking: the core is single-threaded.
- A null instance from a plugin's `alloc` is not a separate failure: the source does not check it, so the device keeps whatever `alloc` returns.
- `FilePlugin.ParseArgs`: the argument is taken to be a C string with no embedded NUL. The source parses `args.c_str()`, which stops at the first NUL; the model parses the whole string.

## Findings

| source | as written | input that shows it | evidently intended | confidence | as-written member | corrected member |
|---|---|---|---|---|---|---|
| riscv/devices.cc:209-221 | `file_plugin_load` and `file_plugin_store` reject only `offset >= length`, then copy `width` bytes | a 4096-byte file, `offset` 4095, `width` 8: the copy runs 7 bytes past the mapping | reject unless `offset + width <= length`, as a device must fail, not fault, on an out-of-range access | not executed; high, the guard reads only `offset` | `FilePlugin.AsWrittenAdmitsOverrun` (on `FilePlugin.AcceptsAsWritten`) | `FilePlugin.FileData.Load`, `FilePlugin.FileData.Store` (on `FilePlugin.AccessInRange`) |
