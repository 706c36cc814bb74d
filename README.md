# DNS-SD name splitter of the OpenThread border router

This project models `src/common/dns_utils.cpp` of the OpenThread border
router (ot-br-posix) in Dafny and proves what the splitter guarantees.
The splitter takes a full DNS name and breaks it into a host name, a
service instance name, a service type, a list of subtypes and a domain.
Three wrappers build on it. Each one accepts the name only when it has the
shape its caller expects, and otherwise reports `OTBR_ERROR_INVALID_ARGS`.
A host name looks like `host.domain.`. A service name looks like
`_svc._udp.domain.`. A service instance name looks like
`inst._svc._tcp.domain.`.

Layout:

- `std_string.dfy` (module `StdString`) holds the `std::string` operations the
  splitter uses, over `seq<char>`. `npos` becomes `None`. `size_t`
  subtraction wraps modulo 2^64.
- `dns_utils.dfy` (module `DnsUtils`) holds:
  - the `DnsNameInfo` record;
  - `SplitFullDnsName` as a function;
  - `SplitSubtypes` as a method whose loop is proved against the function
    `SubtypesOf`;
  - the three wrappers as methods;
  - the lemmas that state the shape of every split.

Out-parameters are modelled as values. Each wrapper takes the caller's
current values and returns the error code together with the new values.
On an error the new values are the old ones. `SplitSubtypes` works the same
way: it takes the caller's vector and returns it with the subtypes
appended.

The subtype layout follows the code. In the code the subtypes follow the
transport label (`inst._svc._tcp,_s1,_s2.local.`): the text from the first
comma up to the domain dot is split at its commas. With the subtypes written
before the service type (`_s1,_s2._svc._tcp.local.`), the code does not
produce a subtype list. It returns the instance name `_s1,_s2` and the
subtypes `["_s2._svc._tcp"]`, and the model reproduces exactly that.

## Model

| member | source | states |
|---|---|---|
| StdString.SizeSub | src/common/dns_utils.cpp:84 | `domainPos - commaPos` as a `size_t`. It is the plain difference when it is non-negative, and 2^64 minus the shortfall when it would be negative. |
| StdString.RFind | src/common/dns_utils.cpp:52-56 | `rfind`: the result is an occurrence with no later one, and `npos` means there is no occurrence at all. |
| StdString.FindFirstOf | src/common/dns_utils.cpp:62 | `find_first_of(c, from)`: the result holds `c` and there is no earlier `c` from `from` on. `npos` means there is no `c` in the rest of the string. |
| StdString.FindLastOf | src/common/dns_utils.cpp:73 | `find_last_of(c, upTo)`: the result holds `c` at or before `upTo` and there is no later one up to `upTo`. `npos` means there is none. |
| StdString.CountOfAppend | src/common/dns_utils.cpp:112 | `std::count` of a concatenation is the sum of the counts of its parts. |
| DnsUtils.AppendDotIfMissing | src/common/dns_utils.cpp:47-50 | The result ends with a dot. It is the name itself when the name already ends with a dot, and the name plus `.` otherwise. |
| DnsUtils.TransportPos | src/common/dns_utils.cpp:52-57 | The result is the last `._udp` if there is one. Otherwise it is the last `._tcp`. It is `npos` exactly when neither label occurs. |
| DnsUtils.DomainPos | src/common/dns_utils.cpp:75 | The domain dot always exists. It lies after the whole transport label, and no dot comes between the label and it. |
| DnsUtils.SplitFullDnsName | src/common/dns_utils.cpp:100-105 | The domain of every split ends with a dot. |
| DnsUtils.NormalisationInvisible | src/common/dns_utils.cpp:45-50 | A name without a trailing dot splits exactly as the same name with the dot added. |
| DnsUtils.HostShape | src/common/dns_utils.cpp:59-69 | With no transport label, the host name is the text before the first dot and holds no dot. The domain is the rest, or `.` when the rest is empty. Instance, service and subtypes stay empty. |
| DnsUtils.InstanceAndServiceSpec | src/common/dns_utils.cpp:73-97 | With no dot before the label, the instance is empty and the service runs from the start through the label. Otherwise instance, `.` and service make up that prefix, and the service holds exactly one dot. The service always ends with the label. |
| DnsUtils.InstanceSplit | src/common/dns_utils.cpp:92-97 | When the instance is split at the last dot before the label, the instance, a dot and the service make up the name up to the end of the label. The service holds exactly one dot. |
| DnsUtils.TransportDots | src/common/dns_utils.cpp:90-96 | `._udp` and `._tcp` each hold exactly one dot. |
| DnsUtils.ServiceShape | src/common/dns_utils.cpp:70-98 | With a transport label, the host name is empty. The instance and service are as in `InstanceAndServiceSpec`, and the service ends with `._udp` or `._tcp`. |
| DnsUtils.SubtypesBeforeSpec | src/common/dns_utils.cpp:79-85 | With no comma there are no subtypes. With a first comma before the domain dot, the subtypes are the pieces of the text from that comma to the dot. With a first comma behind the dot, the `size_t` length wraps and the pieces run to the end of the name. |
| DnsUtils.DomainAndSubtypes | src/common/dns_utils.cpp:75-103 | The domain is the text after the domain dot, or `.` when that text is empty. The subtypes are those `SubtypesBeforeSpec` describes. |
| DnsUtils.ShapeClassification | src/common/dns_utils.cpp:59-98 | At most one of host, service and service instance holds for any name. None holds exactly when there is no transport label and the name starts with a dot. |
| DnsUtils.SplitSubtypes | src/common/dns_utils.cpp:108-127 | The caller's vector comes back with the pieces after each comma of the input appended in order. The text before the first comma is skipped. |
| DnsUtils.SplitStart | src/common/dns_utils.cpp:111-112 | Before the loop, the comma count and the first comma set up the loop invariant with nothing appended. |
| DnsUtils.SplitLast | src/common/dns_utils.cpp:115-119 | When no comma follows, appending the rest of the string completes the subtype list. |
| DnsUtils.SplitNext | src/common/dns_utils.cpp:120-125 | Appending the text up to the next comma keeps the loop invariant with one comma fewer left. |
| DnsUtils.PiecesNext | src/common/dns_utils.cpp:123 | Between two consecutive commas lies exactly one more piece, and one comma fewer remains. |
| DnsUtils.PiecesSplitAt | src/common/dns_utils.cpp:114-124 | A comma splits the pieces into those before it and those after it. |
| DnsUtils.PiecesWithoutComma | src/common/dns_utils.cpp:115-118 | Text with no comma is a single piece. |
| DnsUtils.PiecesCount | src/common/dns_utils.cpp:112 | There is one piece more than there are commas, so the loop runs once per subtype. |
| DnsUtils.PiecesHaveNoComma | src/common/dns_utils.cpp:114-124 | No piece holds a comma. |
| DnsUtils.PiecesJoin | src/common/dns_utils.cpp:108-127 | Joining the pieces with commas gives back the text. |
| DnsUtils.PiecesUnique | src/common/dns_utils.cpp:108-127 | The pieces are the only comma-free list that joins to the text. |
| DnsUtils.FirstCommaSplit | src/common/dns_utils.cpp:111-112 | The subtypes are the pieces after the first comma, and that comma is one of the counted ones. |
| DnsUtils.SubtypesOfSpec | src/common/dns_utils.cpp:108-127 | There is one subtype per comma and no subtype holds a comma. With no comma there are none. Otherwise a comma followed by the subtypes joined with commas gives back the text from the first comma on. |
| DnsUtils.SubtypesExample | src/common/dns_utils.cpp:108-127 | `,a,b,c` gives `a`, `b`, `c` in that order, and the empty string gives nothing. |
| DnsUtils.SplitFullServiceInstanceName | src/common/dns_utils.cpp:129-147 | Success exactly when the split has an instance name. On failure every out value is unchanged. On success the out values are the split's fields. The instance, a dot and a one-dot service type then begin the name, and the domain ends with a dot. |
| DnsUtils.SplitFullServiceName | src/common/dns_utils.cpp:149-161 | Success exactly when the split is a service. On failure the out values are unchanged. On success they are the split's fields, and the type ends with `._udp` or `._tcp`. The type begins the name, or follows a leading dot, and the domain ends with a dot. |
| DnsUtils.SplitFullHostName | src/common/dns_utils.cpp:163-175 | Success exactly when the split has a host name. On failure the out values are unchanged. On success they are the split's fields, the host name is a non-empty label without dots followed by a dot at the start of the name, and the domain ends with a dot. |
| DnsUtils.HostParts | src/common/dns_utils.cpp:168-171 | A host name holds no dot, and it is followed by a dot at the start of the name. |
| DnsUtils.ServiceParts | src/common/dns_utils.cpp:154-157 | A service type is at least the transport label long and ends with it. It begins the name, or follows a leading dot. |
| DnsUtils.ServiceInstanceParts | src/common/dns_utils.cpp:138-143 | Instance, dot and service type begin the name, and the service type holds exactly one dot. |
| DnsUtils.SuffixOfDottedName | src/common/dns_utils.cpp:100-103 | Any suffix of a dotted name already ends with a dot unless it is empty. So the final repair only turns an empty domain into `.`. |

## Left out

- `src/common/types.cpp` (address formatting and a plain copy) is not part of this model. It is context, not part of the splitter.
- `common/dns_utils.hpp` is not part of this model. `IsHost`, `IsService` and `IsServiceInstance` are assumed to test field emptiness: a host name is set; a service name is set with no instance; an instance name is set.
- `common/code_utils.hpp` is not part of this model. `VerifyOrExit` is modelled as an early return that sets the error and writes no out-parameter.
- Aliasing between out-parameters and `std::move` are not captured, because out-parameters are modelled as values passed in and returned.
- The `assert` at `src/common/dns_utils.cpp:64` is modelled as a proof obligation. It always holds, because the name ends with a dot.
- `substr` throwing `std::out_of_range` is not modelled, because the splitter never passes a position past the end.
- SplitSubtypes: `std::count` is stored in an `int` at `src/common/dns_utils.cpp:112`. The model uses an unbounded integer, so it does not capture truncation beyond 2^31 commas.
- DnsUtils.SubtypesBeforeSpec: it is proved only for names of at most 2^64 characters, the largest a `std::string` can hold.
- No length limits or label legality checks of RFC 6763 are made, because the source makes none.
