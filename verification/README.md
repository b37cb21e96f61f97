# Verification of the NMOS reference core

A Dafny model of four parts of the NMOS reference repository, with the laws they are meant to obey
proved for every input, every run and every interleaving.

* **Capabilities and constraints** (`caps/MatroxCCF.py`). Ranges of parameter values, sets of ranges, lists
  of sets, and the operators `<=`, `&`, `<<` and `<&` between them. A range means a set of values, a set of
  ranges means the configurations whose every named parameter lies in its range, and each operator is compared
  with the set operation it stands for. `Ranges`, `RangeLaws`, `CapSets`, `CapSetLaws`, `Negotiation`, `Covering`,
  `Normalization`, `NormalizationLaws`, `NormalizeObjects`, `CapsJson`, `CapsJsonLaws`, `CapsJsonForms`.
* **Privacy encryption** (`pep/ipmx_pep.py`). The counter blocks of AES-CTR, USB messages and RTP packets
  of VSF TR-10-13 (sections 14, 15 and 20) and TR-10-14 (section 12), over arbitrary AES and CMAC functions.
  `Octets`, `Pep`, `Keystream`, `Usb`, `Rtp`.
* **Authorization server** (`fake-as/ipmx_fake_as.py`). Authorization codes, refresh tokens and the audit
  trail of sections 4.1.2, 4.1.3 and 6 of RFC 6749, as a class and as runs of requests. `OAuth`, `OAuthRuns`,
  `OAuthHistory`.
* **Registry failover** (`nmos/rds_targets.py`). The target list and the selector that many clients share.
  `RdsSpec`, `Failover`.

`dafny verify dfyconfig.toml` checks the whole project.

## How to read the model

* Code that changes fields, lists or dictionaries is a method or a class, proved against a function or a
  predicate; a loop over a Python dictionary or set takes its elements in an arbitrary order, so a method
  proved equal to a function is also proved independent of that order. Code that only computes is a function.
* `Result.Raised` is a Python exception. A dictionary is a map whose keys are the names its entries carry.
* FLOAT and RATIONAL numbers are reals. Randomness, clocks, AES, CMAC, the order of a Python set, the parts of a
  `Fraction`, the schema table of parameter types and the non-empty scope of the token template are parameters, and the
  laws hold for every choice of them.
  The random strings of one run are assumed never to repeat (`Run.Fresh`).
* A schema gives each parameter name one type. `Typed` says that a set follows it and holds no empty enumeration,
  which every operator refuses.

## Where the code and its documentation differ

* `includes_range` promises that every value of one range is in the other (`caps/MatroxCCF.py:424-428`). It is wrong
  when both are intervals and the containing one is bounded on a side on which the other is not
  (`Misjudged`), and too strict in four other cases (`Missed`). `RangeLaws.ContainsExactly` says exactly when.
  The laws that build on inclusion carry the condition on the pairs that matter (`CleanlyIn`, `NoneMisjudged`) or are
  if-and-only-if; `RangeLaws.HalfOpenWitness`, `CapSetLaws.ConstrictEscapes`, `Negotiation.HalfOpenSkipWitness` and
  `Negotiation.WideningWitness` show what fails without it.
* `are_native_in_pyramid` promises that skipping the natives loses no information (`caps/MatroxCCF.py:1981-1985`).
  `Negotiation.NegotiationRightExactly` says exactly for which capabilities negotiation is right, and
  `Covering.NegotiationRightDecided` gives a finite test for it.
* `check_part_valid` builds a `ValueError` and does not raise it (`caps/MatroxCCF.py:733-735`), so it does nothing here.
* `includes_value` answers where it should raise when a boolean meets an INT range, because in Python a boolean is
  an integer (`RangeLaws.IncludesValueExactly`).
* `_issue_tokens` means to honour the scope that the client asked for (`fake-as/ipmx_fake_as.py:1041-1045`). If that is
  empty, the access token claims the template's five scopes, while the answer, the grant and the audit entry say none
  (`OAuthRuns.AccessTokenCarries`, `OAuthRuns.EmptyScopeWitness`).
* `pep_encrypt_slices` returns the counter "to use for the next segment" (`pep/ipmx_pep.py:373-377`). Past 2^64 a
  continued segment carries into iv' and a new one does not (`Keystream.ContinuesExactly`), and the carried
  block may be another substream's (`Keystream.OverflowReuses`).

## Model

| member | source | states |
|---|---|---|
| Ranges.Construct | caps/MatroxCCF.py:194-389 | Setting, coercing and clearing the fields step by step yields the specified range, which satisfies every check the constructor makes |
| RangeLaws.NewDenotes | caps/MatroxCCF.py:194-389 | A constructed range admits exactly the values that its flags, bounds and coerced enumeration say |
| RangeLaws.TypeExactly | caps/MatroxCCF.py:276-304 | The type is the declared one, else that of the lower bound, of the upper one, or of every listed value |
| RangeLaws.CoercionExactly | caps/MatroxCCF.py:306-349 | Coercion to INT drops the fraction toward zero, to FLOAT or RATIONAL keeps the number, to BOOL asks whether the value is zero or empty |
| RangeLaws.RefusedExactly | caps/MatroxCCF.py:194-389 | When the constructor raises: contradictory flags, a bound or an item that cannot be coerced, or an item outside the bounds |
| RangeLaws.BoundRefused | caps/MatroxCCF.py:306-349 | A bound is refused when it is text, when the type is BOOL or STRING, or when an INT would lose a fraction |
| RangeLaws.RebuildIsIdentity | caps/MatroxCCF.py:2176-2187 | The field-by-field copy made by the operators changes no valid range |
| RangeLaws.IncludesValueIsMembership | caps/MatroxCCF.py:400-422 | On values of the parameter's type, `includes_value` is membership in the denoted set |
| RangeLaws.IncludesValueExactly | caps/MatroxCCF.py:400-422 | `includes_value` is membership, with an exception on a value of another type, exactly when no boolean meets an INT range; there an enumeration takes True for 1 and False for 0, and an interval admits both |
| RangeLaws.ContainsExactly | caps/MatroxCCF.py:424-483 | Set inclusion and the decision agree on every pair of ranges outside `Misjudged` and `Missed`; on the first the answer is a wrong yes, on the second a wrong no |
| RangeLaws.HalfOpenWitness | caps/MatroxCCF.py:443-465 | [..10] is affirmed to lie in [5..] and in [5..20], and 0 shows that it does not |
| RangeLaws.ReflexiveExactly | caps/MatroxCCF.py:424-483 | A range includes itself unless it mixes bounds with an enumeration that does not fill them |
| RangeLaws.ContainsTransitive | caps/MatroxCCF.py:424-483 | The decision is transitive on ranges that do not mix, away from the half-open corner |
| Ranges.CollectCommon | caps/MatroxCCF.py:588-594 | In any order of the set, the loop keeps exactly the candidates within the bounds |
| RangeLaws.IntersectionIsMeet | caps/MatroxCCF.py:485-600 | Intersection never raises on ranges of one parameter, yields a valid range, and admits exactly the values both admit |
| RangeLaws.EmptyMeetExactly | caps/MatroxCCF.py:485-600 | The result is NUL exactly when no value is shared, except that an empty enumeration met with INF is copied |
| RangeLaws.ClashExactly | caps/MatroxCCF.py:606-625 | Ranges of two different types are never compared or met; an untyped one goes with any |
| RangeLaws.IntersectionAlgebra | caps/MatroxCCF.py:485-600 | Intersection is commutative as a range, and associative and idempotent as a set of values |
| RangeLaws.SubsetIsAbsorption | caps/MatroxCCF.py:485-600 | One range lies in another exactly when intersecting with it changes nothing |
| CapSets.ConstrictWith | caps/MatroxCCF.py:2089-2150 | The dictionary fold of `<<` and `<&` gives the pointwise result, or raises, whatever the order of iteration |
| CapSets.CapAdjustMeaning | caps/MatroxCCF.py:2152-2200 | `<&` on one parameter raises exactly when the two ranges share no value, keeps the capability under an INF constraint, and otherwise admits the shared values |
| CapSets.AdjustFrame | caps/MatroxCCF.py:2105-2122 | `<&` leaves label, part, groups and every unconstrained parameter as they were |
| CapSets.AdjustMeaning | caps/MatroxCCF.py:2089-2200 | `<&` succeeds exactly when every constraint can be met, takes the constraint set's preference, and accepts the configurations accepted by both sides |
| CapSetLaws.AdjustIffCommonConfig | caps/MatroxCCF.py:2089-2200 | Without NUL, `<&` succeeds exactly when some configuration satisfies both sides; a NUL constraint always raises |
| CapSetLaws.OtherPartUnchanged | caps/MatroxCCF.py:1885-1887 | Sets that differ in format or layer leave the capability as it is |
| CapSetLaws.EmptyEnumerationRefused | caps/MatroxCCF.py:1927-1941 | An empty enumeration on either side is refused by every operator on one parameter |
| CapSetLaws.ConstrictIffIncluded | caps/MatroxCCF.py:1863-1971 | `x << y` succeeds exactly when `y <= x` |
| CapSetLaws.ConstrictRefinesAdjust | caps/MatroxCCF.py:1863-1971 | Where `<<` succeeds, `<&` succeeds exactly if no constraint is NUL; and `<<` accepts exactly the common configurations if and only if no constraint was misjudged or a NUL range leaves none |
| CapSetLaws.ConstrictEscapes | caps/MatroxCCF.py:1960-1969 | A misjudged constraint makes `<<` accept a configuration that the capability does not |
| CapSets.CapSetIncluded | caps/MatroxCCF.py:2250-2267 | The walk over both namespaces answers yes exactly when the parts agree and every name is included; a no or an exception comes from some name |
| CapSets.ConSetIncluded | caps/MatroxCCF.py:2399-2415 | The walk over the constraints answers yes exactly when the parts agree and every constraint is INF or included |
| CapSetLaws.ContainmentExactly | caps/MatroxCCF.py:2250-2267 | One set's configurations are all another's exactly when the values of every parameter are, or a NUL range leaves it none |
| CapSetLaws.IncludedExactly | caps/MatroxCCF.py:2250-2285 | An affirmed inclusion is borne out by the configurations exactly when no parameter is in the half-open corner, or a NUL range leaves none |
| CapSetLaws.IncludedConfigs | caps/MatroxCCF.py:2250-2285 | Away from the corner, a configuration of an included set is one of the including set |
| CapSetLaws.IncludedReflexive | caps/MatroxCCF.py:2250-2285 | A set without mixed ranges includes itself |
| CapSetLaws.IncludedTransitive | caps/MatroxCCF.py:2250-2285 | Inclusion of sets is transitive without mixed ranges, away from the corner |
| Negotiation.CapSetIncludedInCaps | caps/MatroxCCF.py:2233-2248 | The loop decides whether a set of the same part includes the given one |
| Negotiation.CapsIncluded | caps/MatroxCCF.py:2212-2231 | The loops decide whether every set of one list is included in some set of the other |
| Negotiation.CapsIncludedReflexive | caps/MatroxCCF.py:2212-2248 | A list of sets without mixed ranges is included in itself, and cleanly: no covering pair is in the corner |
| Negotiation.CapsIncludedTransitive | caps/MatroxCCF.py:2212-2248 | Clean inclusion of lists without mixed ranges is transitive, and is inclusion |
| Negotiation.CapsIncludedConfigs | caps/MatroxCCF.py:2212-2248 | Every configuration of a cleanly included list is one of an alternative of the same part of the including list |
| Negotiation.AreNativeInPyramid | caps/MatroxCCF.py:1975-2017 | The nested loops decide whether every native set lies in a non-native one |
| Negotiation.PyramidMeansContainment | caps/MatroxCCF.py:1975-2017 | Where no inclusion is misjudged or missed, the pyramid says that the configurations of every set of preference 100 all belong to one other set of its part |
| Negotiation.CapsAdjustByConSet | caps/MatroxCCF.py:2044-2087 | The loop with the pyramid guard returns the meet with the first eligible set that can be met |
| Negotiation.CapsAdjustByCons | caps/MatroxCCF.py:2019-2042 | The results of the constraint sets that match, in order, or an exception when there is none |
| Negotiation.SearchFinds | caps/MatroxCCF.py:2068-2087 | The search succeeds exactly when an eligible set meets the constraints, and returns the meet with such a set |
| Negotiation.SearchFirst | caps/MatroxCCF.py:2068-2087 | The search takes the first set of the format and layer of the constraint set, not a skipped native, that meets it, and raises exactly when there is none |
| Negotiation.SearchSound | caps/MatroxCCF.py:2044-2087 | Whether natives are skipped or not, the result has the other attributes of that first set and accepts exactly the configurations of both |
| Negotiation.SkipLosesNothing | caps/MatroxCCF.py:1975-2087 | When each native lies cleanly in some non-native set, skipping the natives finds a match exactly when not skipping them does |
| Negotiation.CoveringAlternative | caps/MatroxCCF.py:1981-1985 | The alternative that covers a native also matches, and its result accepts all that the native's accepts |
| Negotiation.CoversExactly | caps/MatroxCCF.py:2068-2087 | One search matches all that another matches exactly when whatever values the sets of the second admit for some of the parameters, a set of the same part of the first admits |
| Negotiation.SkipHarmlessExactly | caps/MatroxCCF.py:1975-2087 | Over all constraint sets and all lists, the skip is harmless exactly when the natives are covered by the other sets together |
| Negotiation.ConfigsCoveredSuffices | caps/MatroxCCF.py:1975-1985 | Unless a native has a NUL range, that cover is a cover of whole configurations |
| Negotiation.SoundPyramidCovers | caps/MatroxCCF.py:1975-2017 | A pyramid whose covering pairs are away from the corner guarantees that cover |
| Negotiation.HalfOpenSkipWitness | caps/MatroxCCF.py:2068-2080 | In the half-open corner the pyramid is affirmed and the skip drops a match |
| Negotiation.NegotiationSound | caps/MatroxCCF.py:2019-2200 | On every list, each result is the agreement of its constraint set with the first capability set that can answer it, in order and with its preference |
| Negotiation.NegotiationExact | caps/MatroxCCF.py:2019-2200 | If the pyramid is denied, or affirmed with the natives covered, there is one such result for each constraint set that some capability set of its part can meet, and none for any other |
| Negotiation.NegotiationRightExactly | caps/MatroxCCF.py:2019-2200 | That condition on the capabilities is also necessary: exactly under it is every negotiation right, whatever constraint sets are asked |
| Negotiation.SoundPyramidSuffices | caps/MatroxCCF.py:1975-2017 | The condition holds whenever an affirmed pyramid has no covering pair in the corner |
| Covering.Represented | caps/MatroxCCF.py:400-422 | Every value of a parameter has one of finitely many representatives, taken from the bounds and enumerations of a list, that no range of the list tells from it |
| Covering.CoverDecided | caps/MatroxCCF.py:1975-2017 | Whether the natives are covered is decided by a finite test on representative values |
| Covering.NegotiationRightDecided | caps/MatroxCCF.py:1975-2200 | Negotiation is right, whatever is asked, exactly when the pyramid is denied or that finite test holds |
| Negotiation.WideningKeepsMatches | caps/MatroxCCF.py:2044-2087 | A list that cleanly includes another, and on which the pyramid guard is sound, matches every constraint set that the other matched, whatever becomes of the pyramid flag |
| Negotiation.WideningExactly | caps/MatroxCCF.py:2044-2087 | Exactly when a wider list keeps every match of a narrower one |
| Negotiation.WideningWitness | caps/MatroxCCF.py:2068-2080 | In the half-open corner, adding an alternative to a native set loses its match |
| Negotiation.CapsConstrictByConSet | caps/MatroxCCF.py:1835-1861 | The loop constricts the first set of the part that includes the constraint set |
| Negotiation.EncloseFinds | caps/MatroxCCF.py:1835-1861 | `<<` takes the first set of the part that includes the constraint set, and raises exactly when there is none |
| Negotiation.EncloseExactly | caps/MatroxCCF.py:1835-1861 | Its result accepts exactly the configurations of both if and only if nothing of the chosen set was misjudged or a NUL range leaves none; and `<&` matches too unless a constraint is NUL |
| NormalizeObjects.NormalizeCaps | caps/MatroxCCF.py:1019-1160 | New objects hold the specified lists, and no object of the caller is modified |
| NormalizeObjects.EnsureFormatLayers | caps/MatroxCCF.py:1098-1138 | Removing a format, or appending its missing layers and refusing a layer too high, on the object list |
| NormalizeObjects.CapSetObject.PopOutside | caps/MatroxCCF.py:1149-1158 | Popping keys in any order leaves the parameters of the namespace |
| Normalization.NormalizeExactly | caps/MatroxCCF.py:1019-1160 | It raises exactly on a filtered list, a part in a flat list, or a layer at or above an enabled format's count; the result has a trunk, every layer of each enabled format, none beyond, and none of a disabled one |
| Normalization.NormalizeIdempotent | caps/MatroxCCF.py:1019-1160 | Normalizing twice is normalizing once |
| Normalization.NormalizeWidens | caps/MatroxCCF.py:1098-1160 | Surviving sets stay in order and accept at least what they accepted; every added set is native and constrains nothing |
| NormalizationLaws.NormalizeKeeps | caps/MatroxCCF.py:1098-1160 | Each set of no disabled format survives in order with exactly those of its parameters that its format's namespace holds, and all else as it was; what is added follows, and nothing else |
| NormalizationLaws.FlatKeeps | caps/MatroxCCF.py:1060-1080 | A flat list keeps every set, each with exactly the parameters that the trunk namespace holds |
| NormalizationLaws.NormalizeAdds | caps/MatroxCCF.py:1082-1138 | What is added: a trunk if there is none, then the missing layers of audio, video and data, lowest first, under their titles |
| CapsJsonLaws.WriteCaps | caps/MatroxCCF.py:2472-2555 | The loops write the specified JSON, in any order of the capabilities |
| CapsJsonLaws.ReadCaps | caps/MatroxCCF.py:2558-2737 | The loops read the specified sets, or raise, in any order of the entries |
| CapsJsonLaws.RangeRoundTrip | caps/MatroxCCF.py:2525-2535 | A range goes to JSON and back to itself; NUL and an empty enumeration come back as INF |
| CapsJsonLaws.CapsRoundTrip | caps/MatroxCCF.py:2472-2555 | A list goes to JSON and back with label, preference, part, groups and ranges, NUL coming back as INF |
| CapsJsonLaws.CapsRoundTripConfigs | caps/MatroxCCF.py:2472-2555 | Without NUL, what comes back accepts the same configurations |
| CapsJsonLaws.JsonIdempotent | caps/MatroxCCF.py:2558-2737 | Reading any accepted JSON and writing it is idempotent |
| CapsJsonForms.ItemExactly | caps/MatroxCCF.py:2610-2626 | An item is a scalar that stands for itself or a rational of two integers, the denominator 1 when absent or null and never 0 |
| CapsJsonForms.EntryDenotes | caps/MatroxCCF.py:2628-2715 | An entry admits the values within its minimum, maximum and enum, the values of a list, or the one value of a scalar or rational |
| CapsJsonForms.SetReadExactly | caps/MatroxCCF.py:2655-2662 | Each attribute is read from its own key, with the source's defaults |
| CapSets.DecimalExactly | caps/MatroxCCF.py:2657 | The number in a default title is written in decimal, without leading zeros |
| CapsJsonForms.SetRefusedExactly | caps/MatroxCCF.py:2655-2718 | A set is refused exactly when an attribute is of another type than its own or a parameter cannot be read |
| CapsJsonForms.ParamsReadExactly | caps/MatroxCCF.py:2663-2718 | The parameters are the entries under neither meta prefix, each read with its own type |
| CapsJsonForms.CapsReadExactly | caps/MatroxCCF.py:2652-2737 | The sets are read in order and numbered from 1, from under `caps` when present |
| CapsJsonForms.RangeWrittenExactly | caps/MatroxCCF.py:2525-2535 | INF and NUL are written as an empty object, any other range under `enum`, `minimum` and `maximum` |
| CapsJsonForms.SetWrittenExactly | caps/MatroxCCF.py:2537-2555 | Label and preference are always written, format, layer and groups when given, each under its own key |
| Pep.DecryptEncrypt | pep/ipmx_pep.py:329-363 | Decryption returns the plaintext of every length |
| Pep.EncryptedOctet | pep/ipmx_pep.py:329-352 | Bit by bit, octet k of the encryption is the exclusive or of octet k of the text and octet k modulo 16 of the enciphered counter block k / 16 |
| Pep.CounterBlockOctets | pep/ipmx_pep.py:313-352 | The sixteen octets of block i: iv' in the order of the mode, then ctr + i, most significant first |
| Pep.IvPrimeExactly | pep/ipmx_pep.py:290-310 | iv' is iv plus the substream id modulo 2^64, read most or least significant octet first by mode |
| Pep.SlicesExactly | pep/ipmx_pep.py:366-380 | The blocks counted for a text are those of its octets |
| Pep.SubstreamsAdd | pep/ipmx_pep.py:290-310 | Substream ids act on iv by addition modulo 2^64, in both modes |
| Pep.SwapIsConjugate | pep/ipmx_pep.py:290-326 | SWAP is SPEC conjugated by octet reversal, and a SWAP session uses the blocks of the SPEC session on the reversed iv |
| Pep.CounterBlockValue | pep/ipmx_pep.py:313-352 | Block i is iv' followed by ctr + i, while the 64-bit counter does not overflow |
| Keystream.ContinuesExactly | pep/ipmx_pep.py:366-380 | A segment continued over n blocks uses the blocks of a new segment at ctr + n exactly when the counter does not overflow, or so often that the carries wrap around iv' too |
| Keystream.EncryptSplits | pep/ipmx_pep.py:366-380 | Encrypting a + b is encrypting a, then b from the returned counter, at a block boundary |
| Keystream.NoBlockReused | pep/ipmx_pep.py:290-380 | In any run over substreams whose ids differ, in either mode, no two counter blocks coincide while each counter stays at or below 2^64 |
| Keystream.OverflowReuses | pep/ipmx_pep.py:313-352 | Past 2^64 a block of one substream is a block of the next |
| Usb.UsbRoundTrip | pep/ipmx_pep.py:429-500 | Every message of at least 24 octets decrypts to the same header and data, a zeroed tag and a good verdict; shorter ones are refused |
| Usb.UsbVerdict | pep/ipmx_pep.py:466-500 | On any message of at least 24 octets, the verdict is whether the last eight decrypted octets are the first eight of the code over header and data; what comes out besides is header, data and zeros |
| Usb.UsbTagSent | pep/ipmx_pep.py:429-463 | What is encrypted is the data and that code, or zeros in a mode without one |
| Usb.UsbTagTampered | pep/ipmx_pep.py:466-500 | A message whose last eight octets were changed does not pass |
| Usb.UsbAdvanceExactly | pep/ipmx_pep.py:415-426 | The advance counts the blocks of the octets after the header |
| Usb.AadMakesNoDifference | pep/ipmx_pep.py:450-456 | The AAD and the other CMAC branch produce and verify the same octets |
| Usb.UsbCounterField | pep/ipmx_pep.py:446-463 | The keystream starts at the counter in the first eight octets of the header |
| Usb.UsbAdvanceIsSlices | pep/ipmx_pep.py:415-463 | The encrypted part of a message is one segment, and the advance of the message leads to the counter which that segment returns |
| Usb.UsbRunIsSegments | pep/ipmx_pep.py:415-426 | A run of messages is a run of chained segments |
| Usb.UsbNeverReuses | pep/ipmx_pep.py:290-463 | Message runs on substreams whose ids differ never use one counter block twice, within or across runs, in either mode, while each counter stays at or below 2^64 |
| Rtp.FullRoundTrip | pep/ipmx_pep.py:507-551 | A Full header gives back its key version and its 64-bit counter |
| Rtp.ShortRoundTrip | pep/ipmx_pep.py:554-566 | A Short header carries the counter modulo 2^24 |
| Rtp.FullOctets | pep/ipmx_pep.py:507-530 | The twenty octets of a Full header; a key version beyond 32 bits is refused |
| Rtp.ShortOctets | pep/ipmx_pep.py:554-566 | The eight octets of a Short header |
| Rtp.AadOctets | pep/ipmx_pep.py:584-600 | The sixteen octets of additional data, in octets of the packet's own header |
| Rtp.RecoverShortUnique | pep/ipmx_pep.py:569-581 | The recovered counter is the one value in (prev, prev + 2^24] that agrees with the header |
| Rtp.RtpRoundTrip | pep/ipmx_pep.py:603-653 | A payload decrypts to itself with a good tag and the sender's next counter |
| Rtp.RtpVerdict | pep/ipmx_pep.py:630-653 | On any body, the verdict is whether the last eight decrypted octets are the first eight of the code over additional data and payload; a shorter body never passes |
| Rtp.RtpTagSent | pep/ipmx_pep.py:603-627 | What is encrypted is the payload and that code |
| Rtp.RtpTagTampered | pep/ipmx_pep.py:630-653 | A body whose tag was changed does not pass |
| Rtp.ReceiverTracksExactly | pep/ipmx_pep.py:507-653 | Behind any loss, every packet that arrives is recovered with the sender's counter, its payload and a good tag exactly when a Full header comes first and each Short one follows a gap of 1 to 2^24 |
| Rtp.RtpRunIsSegments | pep/ipmx_pep.py:603-625 | A run of packets is a run of chained segments, one per packet |
| Rtp.RtpNeverReuses | pep/ipmx_pep.py:290-380 | RTP streams on substreams whose ids differ never use one counter block twice, within or across streams, while each counter stays at or below 2^64 |
| OAuth.AuthorizationServer.HandleAuthorizePost | fake-as/ipmx_fake_as.py:627-676 | The handler takes the authorization step: one code and one audit entry, or a refusal |
| OAuth.AuthorizationServer.HandleAuthorizationCodeGrant | fake-as/ipmx_fake_as.py:922-954 | The handler takes the exchange step |
| OAuth.AuthorizationServer.HandleRefreshTokenGrant | fake-as/ipmx_fake_as.py:956-981 | The handler takes the rotation step |
| OAuth.AuthorizationServer.HandleToken | fake-as/ipmx_fake_as.py:847-883 | The endpoint authenticates the client and takes the step of its grant |
| OAuth.AuthorizationServer.IssueTokens | fake-as/ipmx_fake_as.py:1024-1089 | One access token, one refresh grant and one audit entry per token pair; an empty scope leaves the access token that of the template |
| OAuthRuns.Serve | fake-as/ipmx_fake_as.py:627-981 | A new server given the requests of a run goes through the states of the run and gives its answers |
| OAuthRuns.RefusedChangesNothing | fake-as/ipmx_fake_as.py:922-981 | A refused request changes neither dictionary |
| OAuthRuns.GrantsConserved | fake-as/ipmx_fake_as.py:922-1089 | After any run the stored refresh grants are as many as the codes exchanged |
| OAuthRuns.RefreshOnce | fake-as/ipmx_fake_as.py:956-981 | No refresh token is exchanged twice |
| OAuthRuns.ExchangeOnce | fake-as/ipmx_fake_as.py:922-954 | No authorization code yields two token pairs |
| OAuthRuns.OriginCarries | fake-as/ipmx_fake_as.py:922-1089 | Every token pair along a refresh chain answers with the scope, and is made for the client and subject, of the one authorization at its root |
| OAuthRuns.AccessTokenCarries | fake-as/ipmx_fake_as.py:1035-1075 | The access token names that client, party and subject, and claims that scope exactly when it is not empty |
| OAuthRuns.ScopesRightExactly | fake-as/ipmx_fake_as.py:1041-1045 | In a run, all access tokens claim what was authorized exactly when no code exchanged had an empty scope |
| OAuthRuns.EmptyScopeWitness | fake-as/ipmx_security_tokens.py:168-176 | A run in which nothing was asked for and the access token claims the five scopes of the template |
| OAuthRuns.OneGrantPerAuthorization | fake-as/ipmx_fake_as.py:922-1089 | At any time each authorization stands behind at most one stored refresh grant |
| OAuthRuns.AuditMatchesTokens | fake-as/ipmx_fake_as.py:822-840 | The audit trail has exactly one entry per token, in order, with its subject and client |
| OAuthHistory.ExchangeExactly | fake-as/ipmx_fake_as.py:922-954 | An exchange succeeds exactly when an authentic client presents, in time and for the same redirect URI, an unused code of an earlier authorization of its own |
| OAuthHistory.RefreshExactly | fake-as/ipmx_fake_as.py:956-981 | A refresh succeeds exactly when an authentic client presents, in time, an unused refresh token issued to it |
| OAuthHistory.AuthorizedExactly | fake-as/ipmx_fake_as.py:627-735 | A request gets a code exactly when the first client of its id lists its non-empty redirect URI, its response type is code, and it shows both the operator's username and password |
| OAuthHistory.AuthorizationLogged | fake-as/ipmx_fake_as.py:640-665 | A well-asked request with wrong credentials adds one denial to the audit trail, one with the right ones a grant, and any other nothing |
| OAuthHistory.TokenRequestLogged | fake-as/ipmx_fake_as.py:1091-1130 | A registered client that fails to authenticate adds one failure, an answered request one token, and any other nothing |
| OAuthHistory.CredentialsExactly | fake-as/ipmx_fake_as.py:885-920 | A client on its own behalf gets an access token of its own with the template's scope, and nothing is stored |
| RdsSpec.ParseRdsSpec | nmos/rds_targets.py:144-255 | An entry is accepted exactly when its fields are known, good and not repeated, a host results and certificates pair with keys; then each field replaces its default, and the first of a repeatable one replaces all that was inherited |
| RdsSpec.WellFormedExactly | nmos/rds_targets.py:110-142 | Fields are good when the name is known, the host not empty, a port from 1 to 65535 and a switch readable, and only authorities, certificates and keys repeat |
| RdsSpec.GivenExactly | nmos/rds_targets.py:184-238 | A field given replaces its default; disabling TLS clears it; the values of a repeatable name replace the list, in order |
| RdsSpec.AbsentExactly | nmos/rds_targets.py:165-183 | A name not given leaves its default |
| RdsSpec.OrderIrrelevant | nmos/rds_targets.py:184-255 | Entries that agree on the order among fields of one name are accepted alike and give the same target |
| RdsSpec.ExchangeIrrelevant | nmos/rds_targets.py:184-255 | Exchanging two adjacent fields of different names changes neither the verdict nor the target |
| RdsSpec.BuildTargets | nmos/rds_targets.py:258-289 | The default alone, or every entry in order, exactly when there are at most five and no two share host and registration port |
| Failover.RegistrySelector.Fail | nmos/rds_targets.py:322-342 | The selection moves one place only if the report names the current target and there is another; the answer is the target at the index, which is the failure count modulo n |
| Failover.EffectiveIsCyclic | nmos/rds_targets.py:322-342 | Over any interleaving of reports, those that take effect are the targets in cyclic order, and the index is their number modulo n |
| Failover.NoneRepeatedEarly | nmos/rds_targets.py:322-342 | No target is left again before every other has been left |
| Failover.OneOutageOneMove | nmos/rds_targets.py:322-342 | Any number of reports of one target moves the selection once |
| Failover.SingleNeverMoves | nmos/rds_targets.py:330-338 | With one target nothing ever moves |
| Failover.DuplicatesSkip | nmos/rds_targets.py:258-289 | With a target listed twice, one outage reported twice moves the selection twice |
| Failover.ReportAll | nmos/rds_targets.py:292-342 | The selector carries out any run of reports as specified |

## Left out

- The registry store, Raft, etcd, the Node, the Controller and the SDP code: other components, not part of this model.
- AES, CMAC, key derivation, JWT signing and TLS: arbitrary functions or absent; nothing is claimed about secrecy.
- Floating-point rounding: FLOAT and RATIONAL are reals.
- `RangeValue.values` as written: the model keeps the coerced set, so the order and repetitions of an enumeration, and of a list of compatibility groups, are not kept.
- Coercion between text and numbers or booleans, enumerations that mix types, and null or nested arrays as enumerated items: the constructor is modelled as raising, which Python does not always do.
- CapsJsonLaws.JsonIdempotent: takes every float of the input to be a ratio of integers, as every Python float is, because the model's reals include others.
- JSON meta attributes of an unexpected type: modelled as raising; the source stores them unchecked.
- The table of capability types in `convert_caps_json_to_caps`: a parameter of the model.
- The `finite=True` variants, the inheritance operator `<-`, unions, `get` and its filters, and the list forms of `<<` and of constraint inclusion: not part of this model.
- The audience, issuer, expiry, token id and `x-nmos` privilege claims of an access token, and its signature.
- `compare_digest` raises on text beyond ASCII; the model compares any text.
- HTTP, HTML, redirects, header decoding and the texts of errors and audit details; each handler reads the clock once.
- Splitting, stripping and number parsing of a `--rds` text, and the reader of a Short RTP header: the fields are taken as given.
- The sender and receiver around the RTP functions: the repository has the functions and no caller; `Rtp` composes them as their documentation says.
- CapsJsonLaws.WriteCaps: writes the coerced enumeration, because the model does not keep `values` as written.
- CapsJsonLaws.CapsRoundTrip: excludes parameters named like a meta attribute, because the reader drops them, and reals that are not ratios, which no Python fraction is.
