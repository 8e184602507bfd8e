# Port scanner orchestration, modelled in Dafny

This project models the scan logic of `port_dominio_scanner.py`, an interactive TCP port scanner for a host or domain. The network probe and the host check are abstract oracles: `isOpen: int -> bool` stands for the connect-with-timeout of `scan_port_rapido`, and `validHost: string -> bool` stands for `validar_host`. What remains is sequential. It consists of:

- the check that decides whether a range scan may start;
- the cap on the worker count;
- the list of submitted probes;
- the loop that reads results back in submission order and builds the list of open ports with their service labels;
- the progress counter;
- the statistics printed at the end;
- the common-ports scan over the service table;
- `main`'s reading of a `start-end` answer.

Files:

- `wrappers.dfy`: `Option`.
- `ordering.dfy`: strict ascent and absence of duplicates over port sequences.
- `catalog.dfy` (module `ServiceCatalog`): the table `PUERTOS_COMUNES` as a sequence of rows in the order they are written, plus the lookup with default `"Desconocido"`.
- `scanner.dfy` (module `PortScanner`): `escanar_rango_completo` as `ScanRange` and `escanar_puertos_comunes` as `ScanCommon`. Each is a method with a loop over the futures list, proved against the specification function `OpenServices`.
- `range_input.dfy` (module `RangeInput`): splitting on `'-'`, integer reading and the range-answer rules of `main`.

Each scan returns the source's list and a `ScanTrace`. The trace records how the scan ended, the pool size, the ports submitted and the progress lines printed. When a scan is rejected, the list is empty and no port is submitted. This matches the source, which returns `[]` after printing its error.

Facts about the source that the model keeps:

- A rejected scan returns an empty list. The trace's status records which error message was printed.
- The result list is ascending because ports are submitted in ascending order and read back in that order. Nothing sorts it.
- The percentage divides by the range size without a guard. The admission check makes the range size at least 1, and `ScanRange` proves that.
- The pool size is `min(max_threads, 1000)`, and nothing bounds it from below. A value below 1 makes the pool constructor raise `ValueError`; the model records that as status `PoolRefused`, with nothing submitted. `main` always asks for the default of 200 (`DefaultWorkers`), so it never reaches that path.

## Model

| member | source | states |
|---|---|---|
| `ServiceCatalog.Find` | port_dominio_scanner.py:21-26 | looking up a port in the table finds a service exactly when the port is a key, and the service found is that key's own row |
| `ServiceCatalog.FindListed` | port_dominio_scanner.py:21-26 | when the table's keys are distinct, looking up a key returns that key's own service |
| `ServiceCatalog.Get` | port_dominio_scanner.py:104 | the dictionary `get` with a default returns a listed port's service from the table, and the default for any port the table does not list |
| `ServiceCatalog.Label` | port_dominio_scanner.py:151 | an open port's label is its table entry when the port is listed, otherwise `"Desconocido"` |
| `ServiceCatalog.Keys` | port_dominio_scanner.py:99 | the keys the common scan iterates are the table's ports, one per row, in the order the rows are written |
| `ServiceCatalog.KeysAscending` | port_dominio_scanner.py:21-26 | the table has 17 keys, and in its written order they are strictly ascending and distinct |
| `ServiceCatalog.LabelOfListedPort` | port_dominio_scanner.py:21-26 | a listed port's label is exactly the service of its row, because the keys are distinct |
| `ServiceCatalog.LabelExamples` | port_dominio_scanner.py:22 | port 22 is labelled "SSH" and port 54321 is labelled "Desconocido" |
| `PortScanner.ScanPort` | port_dominio_scanner.py:76-84 | a probe reports the port it was given. Its open flag is `isOpen(port)` by definition; the folding of every failure into "closed" belongs to the oracle (first line of "Left out") |
| `PortScanner.ValidRange` | port_dominio_scanner.py:126 | the admissible ranges are 1 ≤ start ≤ end ≤ 65535, and an admissible range submits between 1 and 65535 ports |
| `PortScanner.ClampWorkers` | port_dominio_scanner.py:130 | the pool size never exceeds 1000, is either the request or 1000, and equals the request when the request is at most 1000 |
| `PortScanner.PortRange` | port_dominio_scanner.py:139-140 | the submitted ports are start, start+1, …, end, so there are end - start + 1 of them, and none when start > end |
| `PortScanner.PortRangeContents` | port_dominio_scanner.py:140 | the submitted ports are strictly ascending and are exactly the integers between the two bounds |
| `PortScanner.OpenServices` | port_dominio_scanner.py:143-153 | the list the loops build when reading results in order; every entry's port was submitted and was found open |
| `PortScanner.OpenServicesMembers` | port_dominio_scanner.py:143-153 | an entry (p, s) is in the result list exactly when p was submitted, the probe found p open, and s is p's label |
| `PortScanner.OpenServicesAscending` | port_dominio_scanner.py:139-153 | when ports are submitted in ascending order, the result list is strictly ascending by port and repeats no port |
| `PortScanner.OpenServicesBound` | port_dominio_scanner.py:150-153 | the result list has at most as many entries as ports were submitted |
| `PortScanner.RangeResult` | port_dominio_scanner.py:139-153 | the list built over a whole range holds exactly the range's open ports with their labels, strictly ascending, at most one entry per port |
| `PortScanner.Statistics` | port_dominio_scanner.py:158 | `total_puertos` equals the number of ports in the range, and the open count is the length of the result list |
| `PortScanner.OpenPercentage` | port_dominio_scanner.py:159 | the percentage times the total equals 100 times the open count, and it lies in [0, 100] when open count ≤ total |
| `PortScanner.SingleOpenPortList` | port_dominio_scanner.py:143-153 | if exactly one port P of the range answers open, the result list is exactly [(P, label of P)] |
| `PortScanner.OneOpenPercentage` | port_dominio_scanner.py:159 | with one open port the percentage is 100 divided by the number of ports |
| `PortScanner.SingleOpenPortScan` | port_dominio_scanner.py:143-159 | if exactly one port P of the range answers open, the result list is exactly [(P, label of P)] and the percentage is 100 / (end - start + 1) |
| `PortScanner.ProgressSoFar` | port_dominio_scanner.py:142-148 | after `completed` probes there are completed / 500 progress lines and line k reads (500·k, total); so 500 · lines ≤ completed < 500 · (lines + 1) |
| `PortScanner.ProgressLines` | port_dominio_scanner.py:147-148 | every progress line carries a positive multiple of 500 no larger than the probes completed, together with the range's total |
| `PortScanner.ScanRange` | port_dominio_scanner.py:120-170 | an invalid host is rejected first; otherwise a range outside 1 ≤ start ≤ end ≤ 65535 is rejected; a rejected scan submits nothing and returns `[]`. A scan that goes ahead uses `min(max_threads, 1000)` workers. It submits each port of the range once, in ascending order, end - start + 1 ≥ 1 in all. It returns exactly the open ports of the range with their labels, strictly ascending and without repeats. It prints progress line k (counting from 1) as (500·k, total), so there are total / 500 lines, and `completed` ends equal to the total |
| `PortScanner.ScanCommon` | port_dominio_scanner.py:86-118 | an invalid host is rejected with nothing submitted. Otherwise the scan uses 50 workers and submits the 17 table keys once each, in table order. It returns exactly the open listed ports, each with its table service, ascending and without repeats |
| `RangeInput.Split` | port_dominio_scanner.py:213 | splitting always yields at least one part |
| `RangeInput.JoinSplit` | port_dominio_scanner.py:213 | joining the parts of a split with the separator gives back the original text |
| `RangeInput.SplitWithoutSeparator` | port_dominio_scanner.py:213 | text without the separator splits into itself alone |
| `RangeInput.SplitAfterPiece` | port_dominio_scanner.py:213 | a separator-free piece followed by the separator becomes the first part of the split |
| `RangeInput.DigitsValue` | port_dominio_scanner.py:213 | the value `int()` gives a digit string, which is zero exactly when every digit is '0' |
| `RangeInput.ParseNat` | port_dominio_scanner.py:213 | reading an integer succeeds exactly on non-empty digit strings, so a part that reads as an integer holds no separator |
| `RangeInput.ShowNat` | port_dominio_scanner.py:213 | the decimal writing used as the inverse of `int()` in `ParseShow` and `ShowParse`: a non-empty digit string without leading zeros |
| `RangeInput.ParseShow` | port_dominio_scanner.py:213 | reading a number's decimal form gives the number back |
| `RangeInput.ShowParse` | port_dominio_scanner.py:213 | writing back the number read from a digit string without a leading zero gives that string |
| `RangeInput.ParseRange` | port_dominio_scanner.py:211 | an answer is rejected with "Use formato inicio-fin" exactly when it has no `'-'` |
| `RangeInput.ParseRangeSound` | port_dominio_scanner.py:212-216 | an answer that yields bounds (a, b) is the digits of a, then one `'-'`, then the digits of b |
| `RangeInput.ParseRangeComplete` | port_dominio_scanner.py:212-214 | digits of a, one `'-'`, then digits of b always yield the bounds (a, b) |
| `RangeInput.ParseRangeRoundTrip` | port_dominio_scanner.py:213-214 | writing two numbers around `'-'` reads back as those two bounds |
| `RangeInput.ThreePartsAreBadFormat` | port_dominio_scanner.py:215-216 | "1-2-3" splits into three parts and falls into the malformed-range branch |

## Left out

- The TCP connect with its 0.5 s timeout in `scan_port_rapido` is network I/O. It is the oracle `isOpen`, and a probe is assumed to give the same answer whenever it is asked about the same port.
- `validar_host` parses an IP literal and falls back to DNS resolution. That is library and DNS work, so it is the oracle `validHost`.
- The host check ends in a boolean only when it returns. `validar_host` catches only `socket.gaierror` from `socket.gethostbyname`. A name that the IDNA codec cannot encode, such as `"a..b"` or a name with a label over 63 characters, raises `UnicodeError`, a subclass of `ValueError`. That exception leaves the scan instead of returning `[]`. After a range answer, `main` catches it as a `ValueError` and prints the malformed-range message. After the common-ports choice, it reaches the catch-all handler. The oracle `validHost` is total, so the model does not show this exit.
- The thread pool's scheduling and concurrency are not modelled. Results are read back in submission order, so the model reads them in order. The bound of at most N probes in flight is a property of the pool and is not stated.
- The elapsed time uses the clock and is left out. The percentage is an exact real; the float rounding and two-decimal formatting of the printed percentage are left out.
- Console output is left out: colours, the banner, the print helpers and the catalog listing. So is the `sorted(open_ports)` display in the common scan; the list it sorts is already ascending (`ScanCommon`).
- The export prompt after a range scan and `exportar_resultados` are left out, because they are file writing with a timestamp.
- The `main` menu, its prompts, the `.strip()` of each answer, and the single-port option 3 are left out, because they are interactive dispatch. So is the catch-all exception handler.
- ParseNat: accepts only non-empty ASCII digit strings. Python's `int()` also accepts surrounding whitespace, a leading `+`, underscores between digits and non-ASCII digits, so answers such as `" 1 - 100"` read as bounds in the source and as malformed here. In the other direction, `ParseNat` accepts digit strings of any length. From Python 3.11 on (and in the security backports), `int()` raises `ValueError` on a decimal string longer than 4300 digits, the default of `sys.get_int_max_str_digits()`. So an answer such as 4301 ones followed by `-1` is malformed in the source ("Formato de rango inválido"), but here it reads as bounds, and the scan then rejects the range instead. `ParseRangeComplete` has the same gap.
- ScanRange: a worker count below 1 is recorded as status `PoolRefused` with nothing submitted. In the source, the pool constructor raises `ValueError`, and `main` would report it as a malformed range. `main` always asks for 200 workers, so that path is not reachable from `main`.
