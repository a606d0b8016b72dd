# luna address allocation and table layout, in Dafny

This project models the core of the luna cluster manager that hands out IPv4
addresses to nodes and lays out its command-line tables:

- **Free lists** (`luna/utils/freelist.py`, modules `Ranges` and `FreeList`).
  A subnet's unallocated relative addresses are a list of closed ranges
  `{'start': s, 'end': e}`, sorted by start and pairwise separated by at
  least one used address. A new list starts at address 1, above the network
  address 0, although a caller may later free address 0 too. The model
  covers each operation on such a list:
  - `next_free` takes the lowest address;
  - `unfree_range` reserves one address or a block;
  - `free_range` releases one, then sorts and merges;
  - `set_upper_limit` moves the top border;
  - `get_nonfree` lists the used addresses.

  Every operation is tied to the set of addresses the list covers, and
  that set is the operation's specification.
- **IPv4 helpers** (`luna/utils/ip.py`, module `Ip`).
  - `get_num_subnet` masks an address down to its network base.
  - `ip_in_net` compares two network bases.
  - `atorel` converts an absolute address to one relative to a network, and
    `reltoa` converts back.
  - `aton` and `ntoa` convert between a 32-bit number and four octets.

  The bitwise `^` and `&` on Python integers are modelled bit by bit. The
  mask is proved to select the block of `2^(32-prefix)` addresses that
  holds the address.
- **The IPList prototype** (`test/test27.py`, module `Prototype`). An
  object that owns a free list and an upper border, with `getnext`, `get`,
  `_change_tuple` and `set_border`. `getnext` is proved to be exactly
  `next_free`. On a free list, and for addresses up to the border given at
  creation, `get` is proved to rewrite the list as `unfree_range(flist, num)`
  would. The stored border is never raised, so after `set_border` moves the
  top up, `get` still refuses addresses above the original border.
- **Table layout** (`format_output` in `luna/utils/helpers.py`, module
  `Table`).
  - Each cell is split into lines at `'\n'`.
  - Column widths are the longest line in each column.
  - The header and the content are written into two grids of lines, each
    content row taking as many grid rows as its tallest cell.

  The method keeps the source's loops and fills arrays in place. Its
  results are specified by functions over the split rows, whose properties
  are proved as lemmas.

`wrappers.dfy` holds the `Option` and `Result` types used for Python's
`None` results and raised `RuntimeError`s.

## Model

| member | source | states |
|---|---|---|
| FreeList.NextFree | luna/utils/freelist.py:45-66 | pops or shrinks the caller's first range in place and returns the same list object with its lowest address; an empty list yields None and is left as it is |
| FreeList.TakeLowestTakesMinimum | luna/utils/freelist.py:45-66 | on any sorted list of disjoint, non-touching ranges (address 0 may be free), next_free fails exactly when the list is empty; otherwise the address it returns is free, no free address is lower, and exactly that address leaves the free set |
| FreeList.TakeLowestKeepsFreeList | luna/utils/freelist.py:57-64 | what next_free leaves is again a sorted, separated, positive free list, and every range after the first is kept in order |
| FreeList.TakeLowestTwiceIncreases | luna/utils/freelist.py:45-66 | two successive next_free calls never return the same address: the second is strictly higher |
| FreeList.UnfreeRange | luna/utils/freelist.py:69-133 | follows unfree_range's branches: the empty list, a start or end outside [first start, last end], and no range holding both give None with the list unchanged; otherwise the carved list and the single address or the [start, end] pair |
| FreeList.CarveLoop | luna/utils/freelist.py:101-124 | the loop copies every range that does not hold [start, end], carves the one that does per the four branches, and records the index of the holding range (-1 if none) |
| FreeList.UnfreeIsReserve | luna/utils/freelist.py:86-95 | on a free list the boundary checks are redundant: unfree_range gives the same result as carving the unique holding range |
| FreeList.ReserveOutcome | luna/utils/freelist.py:103-133 | a reservation fails exactly when no range holds both ends, and then returns the list unchanged; on success it reports the requested address or pair, and every address of [start, end] was free |
| FreeList.ReserveCovered | luna/utils/freelist.py:110-121 | a successful reservation leaves a free list; it removes all of [start, end], except when start is a range's own start and end lies inside that range, where only start is removed |
| FreeList.CarvedFacts | luna/utils/freelist.py:110-124 | replacing the holding range by its carved pieces keeps the list a free list and removes exactly the carved addresses |
| FreeList.HolderAlone | luna/utils/freelist.py:103-108 | in a free list at most one range holds both ends of the request |
| FreeList.LeftEdgeReservationLeaks | luna/utils/freelist.py:113-114 | as written, reserving [1, 5] from [1, 254] reports the block [1, 5] but leaves [2, 254], so next_free then hands out 2 |
| FreeList.ReserveIntendedRemovesBlock | luna/utils/freelist.py:113-114 | with the left-edge branch keeping [end + 1, range end], a reservation removes exactly [start, end], keeps a free list, and releasing the block restores the original list |
| FreeList.ReserveIntendedAgrees | luna/utils/freelist.py:110-121 | the corrected reservation agrees with the code as written on every single address and on every range request the left-edge branch does not mishandle |
| FreeList.FreeRange | luna/utils/freelist.py:136-194 | free_range returns the list obtained by appending the range, sorting by start and merging, and reports the single address or the [start, end] pair |
| FreeList.ReleasedFacts | luna/utils/freelist.py:136-189 | the released list is sorted and separated, and it covers exactly the old free addresses plus [start, end], for any list of proper ranges even if they overlap |
| FreeList.MergePass | luna/utils/freelist.py:157-189 | the merge loop with its skip counter builds the same list as a one-range-at-a-time merge sweep over the sorted list |
| FreeList.MergeRun | luna/utils/freelist.py:168-186 | the inner loop absorbs each following range that overlaps or touches the current one, or lies inside it, and stops at the first gap; the skip count is the number absorbed |
| Ranges.SortByStartFacts | luna/utils/freelist.py:153 | sorting by start keeps the covered addresses and the properness of every range (SortByStart itself is proved sorted and a permutation) |
| Ranges.CoalesceFacts | luna/utils/freelist.py:157-189 | merging a sorted list of proper ranges gives a sorted, separated list with the same covered addresses |
| Ranges.CanonicalUnique | luna/utils/freelist.py:136-194 | two sorted and separated lists covering the same addresses are equal, so a free list is determined by its address set |
| FreeList.ReleaseIdempotent | luna/utils/freelist.py:136-189 | freeing the same range twice gives the same list as freeing it once |
| FreeList.ReleaseFreeIsIdentity | luna/utils/freelist.py:136-189 | freeing addresses that are all already free leaves a free list unchanged |
| FreeList.TakeThenRelease | luna/utils/freelist.py:45-66 | freeing the address next_free returned restores the list it was taken from |
| FreeList.ReserveThenRelease | luna/utils/freelist.py:69-194 | freeing a reserved address, or a reserved block the left-edge branch handled correctly, restores the original list |
| FreeList.SetUpperLimit | luna/utils/freelist.py:197-215 | raises (BoundaryConflict, list unchanged) exactly when the new end lies below the last range's start; otherwise it overwrites the last range's end in the caller's list and returns that list |
| FreeList.UpperLimitKeepsLowerAddresses | luna/utils/freelist.py:204-213 | moving the border keeps a free list, leaves every address below the last range's start as it was, and makes the addresses from that start up to the new end, and no others, free |
| FreeList.UpperLimitKeepsNonFree | luna/utils/freelist.py:197-246 | moving the upper border does not change what get_nonfree reports |
| FreeList.GetNonfree | luna/utils/freelist.py:218-246 | for any list whose last range is proper, the loop scans the addresses from 1 below the last range's start. It lists every address outside the head range and drops the head range, one range per address, once an address passes it. The result and the popped caller's list are those of that scan. An empty list gives range(1, limit), or BoundaryRequired without a limit |
| FreeList.ScanUncovered | luna/utils/freelist.py:235-244 | on a canonical list with no range wholly below 0, after the rounds for the addresses below n the scan has listed exactly the uncovered addresses from 1 below n, and its head is the first range that can still hold n |
| FreeList.NonfreeAsWrittenMeetsSpec | luna/utils/freelist.py:218-246 | on every canonical list with no range wholly below 0 (so including lists where address 0 is free), get_nonfree returns exactly the specified used addresses and leaves the caller only the last range |
| FreeList.NonfreeExamples | luna/utils/freelist.py:218-246 | [{0,254}] gives [] and stays as it is; [{0,3},{10,254}] gives [4..9]; with a range wholly below 0, as in [{-3,-1},{1,5},{8,9}], the one-range drop lists the free address 1 |
| FreeList.NonFreeSpec | luna/utils/freelist.py:218-246 | the get_nonfree result holds exactly the addresses from 1 below the top that are not free, strictly ascending |
| FreeList.UncoveredCount | luna/utils/freelist.py:235-244 | the used and free addresses in the scanned interval add up to its length |
| Ip.Ntoa | luna/utils/ip.py:32-47 | succeeds exactly on [0, 2^32), giving four octets each in [0, 255]; any other number raises |
| Ip.Aton | luna/utils/ip.py:50-62 | succeeds exactly when all four octets are in [0, 255], and then gives a number in [0, 2^32); any other address raises |
| Ip.NtoaAton | luna/utils/ip.py:32-62 | ntoa succeeds exactly on [0, 2^32), and aton inverts it |
| Ip.AtonNtoa | luna/utils/ip.py:50-62 | aton succeeds exactly when all four octets are in [0, 255], gives a number below 2^32, and ntoa inverts it |
| Ip.ConversionExamples | luna/utils/ip.py:32-62 | 10.0.0.1 is 167772161 both ways; an octet of 256 or the number 2^32 raise |
| Ip.GetNumSubnet | luna/utils/ip.py:94-120 | fails exactly when the prefix is outside 1..31 or the address does not convert; a bad prefix is reported before a bad address. Ip.SubnetBounds states what the base is |
| Ip.GetNumSubnetErrors | luna/utils/ip.py:94-120 | get_num_subnet raises exactly when the prefix is not in 1..31 or a dotted address does not convert, and a bad prefix is reported first |
| Ip.SubnetBase | luna/utils/ip.py:117-118 | the mask `(2^32-1) ^ (2^(32-prefix)-1)` followed by `&` keeps the low 32 bits of the address with the low 32-prefix bits cleared |
| Ip.SubnetBounds | luna/utils/ip.py:94-120 | the subnet base is a multiple of 2^(32-prefix), at most the address's low 32 bits and within one block below them |
| Ip.SubnetIdempotent | luna/utils/ip.py:94-120 | masking a subnet base again gives the same base |
| Ip.SubnetExamples | luna/utils/ip.py:94-120 | 10.0.0.6/24 has base 10.0.0.0; prefixes 32 and 33 and the octet 256 raise |
| Ip.IpInNet | luna/utils/ip.py:123-137 | fails exactly when the address does not convert or the prefix is outside 1..31; an address that does not convert is reported first; on success, answers whether the address and the network have the same subnet base |
| Ip.IpInNetSameBase | luna/utils/ip.py:123-137 | ip_in_net raises exactly when the address does not convert or the prefix is outside 1..31; in every other case it succeeds, and its answer compares the two subnet bases. What the answer means (lying in the block) is stated by Ip.InNetIsInBlock |
| Ip.InNetIsInBlock | luna/utils/ip.py:123-137 | for 32-bit numbers, an address is in the network exactly when it lies in the network base's block of 2^(32-prefix) addresses |
| Ip.Atorel | luna/utils/ip.py:75-91 | succeeds exactly when the address converts, the prefix is in 1..31 and the address has the network's subnet base; the offset it returns, added to `net`, is the address's number |
| Ip.Reltoa | luna/utils/ip.py:65-72 | succeeds exactly when `net + rel` is in [0, 2^32), and then gives the dotted address that aton turns back into `net + rel` |
| Ip.AtorelErrors | luna/utils/ip.py:75-91 | atorel raises exactly when the address does not convert, the prefix is invalid, or the address is outside the network |
| Ip.AtorelReltoa | luna/utils/ip.py:65-91 | a relative address from atorel adds back to the absolute one, and reltoa turns it back into the same dotted address |
| Ip.AtorelInBlock | luna/utils/ip.py:75-91 | relative to a network's own base, the relative address lies in [0, 2^(32-prefix)) |
| Prototype.IPList.constructor | test/test27.py:4-6 | the object starts with the given border (254 by default) and the single range [1, border] |
| Prototype.IPList.GetNext | test/test27.py:8-17 | the list and result are exactly what next_free gives, the border is kept, and a free list stays one |
| Prototype.IPList.Get | test/test27.py:19-34 | an address above the border gives None with the list unchanged; otherwise the list becomes the per-range rewrite by _change_tuple, and the result is the address exactly when it was free; a free list stays one |
| Prototype.ChangeTuple | test/test27.py:36-47 | reports exactly whether the range holds the address; a range without it is returned as the only piece; None exactly when the range is the single address; otherwise every piece lies inside the range and misses the address |
| Prototype.ChangeTupleFacts | test/test27.py:36-47 | _change_tuple reports exactly whether the range holds the address, its pieces cover the range minus that address, and a range without it is kept as it is |
| Prototype.ChangeAllCovered | test/test27.py:19-34 | get removes exactly the requested address from the free set, for any list, and leaves the list unchanged when the address was not free |
| Prototype.ChangeAllIsReserve | test/test27.py:19-47 | on a free list, get builds the same list as unfree_range for the single address, and succeeds exactly when it does |
| Prototype.IPList.SetBorder | test/test27.py:52-57 | fails (list unchanged) exactly when the border lies below the last range's start; otherwise overwrites the last range's end; the stored border is not changed; a free list stays one |
| Table.SplitJoin | luna/utils/helpers.py:238 | joining the pieces of `split('\n')` with '\n' gives the cell text back |
| Table.SplitNoNewline | luna/utils/helpers.py:238 | no piece of a split cell contains '\n' |
| Table.JoinSplit | luna/utils/helpers.py:238 | splitting lines without '\n' joined by '\n' gives those lines back, so a cell is determined by its lines |
| Table.CountColumns | luna/utils/helpers.py:222-227 | the column count is the longest of the header and the content rows, and the content row count is the number of rows |
| Table.NumColsFacts | luna/utils/helpers.py:222-227 | the column count is at least the header's and every row's length, and equals one of them |
| Table.MeasureCell | luna/utils/helpers.py:240-246 | the inner loop raises the column's width to the cell's longest line, touches no other column, and raises the running height to the line count + 1 when the cell has lines |
| Table.MeasureRow | luna/utils/helpers.py:236-246 | one row's loop records each cell's lines, pads the row to the column count with empty cells, widens each of its columns to that cell's longest line, and reports the row's tallest cell + 1 |
| Table.MeasureContent | luna/utils/helpers.py:247-263 | over all content rows it records the split rows and their heights, totals the grid rows + 1, and leaves each width the longest line of its column in header and content |
| Table.ColWidthBound | luna/utils/helpers.py:230-260 | no header or content line in a column is longer than that column's width |
| Table.ColWidthAttained | luna/utils/helpers.py:230-260 | a non-zero column width is the length of some header or content line in that column |
| Table.CellWidthFacts | luna/utils/helpers.py:241-244 | a cell's width bounds all its lines and is zero or the length of one of them |
| Table.TallFacts | luna/utils/helpers.py:235-246 | a row's height is at least every cell's line count, zero for no cells, and otherwise some cell's line count |
| Table.HeaderGrid | luna/utils/helpers.py:266-271 | the header grid has one row per line of the tallest header cell and one column per column; cell (j, c) is line j of header cell c, or "" past its end |
| Table.PlaceBlock | luna/utils/helpers.py:274-276 | writing one content row at an offset sets exactly the grid rows its cells' lines cover and leaves every other entry as it was |
| Table.PlaceContent | luna/utils/helpers.py:267-277 | the content grid entry (R, c) is the line of column c of the content row whose block holds R, or "" |
| Table.ContentAtBlock | luna/utils/helpers.py:272-277 | each content row occupies the grid rows from its offset for as many rows as its tallest cell, and shows its own lines there |
| Table.ContentAtBeyond | luna/utils/helpers.py:267 | below the last row's block the grid holds nothing |
| Table.OffsetMono | luna/utils/helpers.py:277 | the offset where a content row starts never decreases along the rows |
| Table.BlockFits | luna/utils/helpers.py:267-276 | every cell's lines fit inside the content grid |
| Table.FormatOutput | luna/utils/helpers.py:220-279 | returns fresh arrays: the column widths, the header grid and the content grid as above, with sizes given by the column count, the header height and the sum of the content heights |
| Table.LayoutExample | luna/utils/helpers.py:220-279 | header ["a", "b\nc"] with one row ["xx"] has 2 columns of widths 2 and 1, a two-row header grid with "c" under "b", and a one-row content grid |

## Left out

- Logging calls and the text of the error messages are left out. Every raised `RuntimeError` is an `Err` value whose kind names the failure.
- Ip.Aton, Ip.Ntoa: the dotted text form is modelled as four integer octets (`Quad`). The system calls `inet_aton`/`inet_ntoa` are not part of this model, so neither are their parsing details (shorthand forms such as `"10.1"`, whitespace).
- Ip.GetNumSubnet: the `int(prefix)` conversion of a string prefix is left out. The prefix is an integer, and a non-integer prefix cannot be written.
- `guess_ns_hostname` and the rest of `luna/utils/ip.py` that queries DNS are not part of this model (network I/O).
- FreeList.GetNonfree: requires the last range to be proper (`start <= end`). Otherwise the loop can drop every range and then index an empty list, which raises `IndexError`. The as-written scan matches the specification only on canonical lists with no range wholly below 0 (FreeList.NonfreeAsWrittenMeetsSpec). On two touching ranges, or on a range lying wholly below 0, the drop of one range per address lists a free address. free_range merges touching ranges. A caller can only create a range below 0 by freeing negative relative addresses.
- FreeList.FreeRange: requires every range to be proper (`start <= end`), the shape the module keeps. The merge is not specified for a range whose end lies below its start.
- FreeList.SetUpperLimit and Prototype.IPList.SetBorder: require a non-empty list. `flist[-1]` on an empty list raises `IndexError`, which the source does not handle.
- Prototype.IPList.SetBorder: as in the source, it does not update the stored upper border. `get` keeps comparing against the border given at creation.
- The `__str__` method and the module-level demonstration script of `test/test27.py` are left out (printing).
- Table.Width, Table.CellWidth: a line's length counts `char`s, and a `char` is one byte of the Python 2 `str` that `str(elem)` produces. Column widths are therefore byte counts, and display width is not modelled. A `unicode` cell holding non-ASCII text makes `str()` raise `UnicodeEncodeError` under the default ASCII encoding. That error is left out together with the `str()` conversion (next line).
- Table.FormatOutput: cells are strings. The `str()` conversion of other Python values is left out. The dictionary argument `out` becomes the two parameters `header` and `content`. The returned Python lists of lists become `array2` grids.
- Table.FormatOutput: the shared empty lists of `[[]] * (num_col + 1)` are only read, never mutated, so the model uses plain values for them.
- The rest of `luna/utils/helpers.py` (locking, daemon and pid-file handling, shell calls) is not part of this model.

## Findings

| source | as written | input that shows it | evidently intended | confidence | as-written member | corrected member |
|---|---|---|---|---|---|---|
| luna/utils/freelist.py:113-114 | when the requested block starts at a range's start and ends inside it, the range is replaced by `[start + 1, range end]` | `unfree_range([{1, 254}], 1, 5)` reports `[1, 5]` reserved but leaves `[2, 254]`, so addresses 2 to 5 can be handed out again | replace the range by `[end + 1, range end]`, removing the whole block | not executed | FreeList.LeftEdgeReservationLeaks | FreeList.ReserveIntendedRemovesBlock |
