# ASN.1 macro codec and bignum representation

This project models the two parts of the OpenSSL headers kept in `native/include/openssl` that hold real code:

- the `M_ASN1_D2I_*` / `M_ASN1_I2D_*` macros of `asn1_mac.h`, a small language in which BER decoders and DER encoders are written, field by field;
- the bignum representation of `bn.h`: the words of a `BIGNUM`, `bn_correct_top`, and the macros that rely on what it establishes.

## How the codec is modelled

A decoder/encoder pair is a value of type `Schema.Codec`: the list of field macros it uses (`Schema.Field`), nested to any depth. Functions that the macros only receive (`d2i_X`, `i2d_X` of types defined elsewhere) are arbitrary pure functions that meet `Schema.LeafContract`: a set of identifiers without end-of-contents, of which GetOpt and ImpOpt demand exactly one as the macros do, decoding that inverts encoding, and decoding that looks at nothing but what it consumes. A primitive TLV codec and a codec for any definite element (ANY, or a CHOICE) are shown to meet it. Everything below is for all codecs, all values, all windows, and any mixture of definite and indefinite forms.

| file | content |
|---|---|
| `Bytes`, `X690` | octets and masks; identifier octets, length octets and end-of-contents |
| `Schema` | the macro language as data, values, the contract of unseen functions |
| `Decode`, `Encode` | what the macros compute, as functions |
| `Decoder`, `Encoder` | the macros as they run: a cursor over a buffer that is written into and restored, the length pass and the put pass |
| `Transaction` | the frame of a d2i function: allocation, reuse, `*pp`, `*a`, the `err:` label |
| `Decoded` | what a successful decoder leaves in the object it fills |
| `RoundTrip`, `Ambiguity` | decoding inverts encoding, exactly on complete values in which no absent optional field accepts the next present one |
| `Canonical` | distinct tags, unique decoding, normal forms, stable re-encoding, reuse of objects slot by slot |
| `Failure` | what a failed decoder leaves in the object it was given |
| `SetOf` | SET OF in any order, at every depth |
| `Grammar` | a grammar of encodings, and the decoder as its parser |
| `Wire` | the codec in octets: frames, first octets, lookahead, EXPLICIT fields and empty lists, spelled out in numbers |
| `Shortest` | no spelling of a value is shorter than what the encoder writes |
| `Locality` | which octets an outcome depends on, definite against indefinite form for contents written by anyone |
| `Counterexamples` | inputs on which the conditions fail |
| `Bignum` | the bignum representation |

The headers only declare `ASN1_get_object`, `ASN1_put_object`, `ASN1_object_size`, `ASN1_const_check_infinite_end`, `asn1_GetSequence`, `asn1_const_Finish`, `i2d_ASN1_SET` and `d2i_ASN1_SET`. They are defined here from ITU-T X.690: identifier octets (section 8.1.2), length octets (section 8.1.3, with 8.1.3.6 for the indefinite form), end-of-contents octets (section 8.1.5), sequence and set-of values (sections 8.9, 8.10 and 8.12) and tagged values (section 8.14). The macros come from `asn1_mac.h`.

Results about the code that its comments do not give away:

- of all the values that the encoder accepts, the round trip holds for exactly those that have no NULL in a mandatory field or list, and in which no absent optional field accepts the first octet of the next present one (`RoundTripExactly`); with the ASN.1 rule of distinct tags the second condition always holds (`DistinctIsClear`);
- it gives back the value itself exactly when, besides, no optional list macro has an empty list (`RoundTripIdentity`), which is the only thing that normalising changes (`NormExactly`);
- the encoder writes nothing for NULL in a mandatory field and does not complain, and the octets can decode, to another value (`NullShifts`);
- whatever octets are accepted, what they decode to can be encoded again, and survives that exactly under the second condition (`TranscodingExactly`);
- decoding into an existing object keeps whatever that object held in the fields the encoding leaves out (`ReuseSlots`, `ReuseExactly`), and a failure leaves what was decoded up to the error (`FailureLeaves`);
- the choice of length octets makes every encoding the shortest among all spellings with the same forms, and definite form the shortest of all below 64 KiB, where indefinite form takes over (`ShortestSpelling`, `IndefiniteShorter`);
- the EXPLICIT macro in definite form never checks that the inner value fills the declared length, so contents can be accepted in indefinite form and refused in definite form (`WrapFormsExactly`, `ExplicitOverruns`), though never without EXPLICIT fields (`FormsAgree`);
- apart from that, the decoder is exactly the parser of those spellings in which each absent optional field refuses the octet that comes next (`ParsesExactly`), and with distinct tags of all spellings (`ParsesDistinct`);
- the variable `v` of the EXPLICIT length macro may be shared between fields exactly when their contents have one length (`SharedLengthExactly`);
- `BN_abs_is_word` needs less than the normal form: any non-zero word above the lowest will do (`AbsIsWordExactly`).

## Model

| member | source | states |
|---|---|---|
| Bytes.MasksAreBitwise | native/include/openssl/asn1_mac.h:149-151 | the arithmetic masks used throughout are the `&` and `& ~` of V_ASN1_CONSTRUCTED on octets |
| X690.GetObject | native/include/openssl/asn1.h:944-945 | a header that is reported lies in its window, and in definite form so does the content it declares; `HeaderSpelled`, `HeaderOnly` and `BadExactly` say which are reported |
| X690.HeaderSpelled | native/include/openssl/asn1.h:944-945 | every definite header is reported as it stands, for every low tag and every short or long spelling of the length, padded ones included |
| X690.HeaderOnly | native/include/openssl/asn1.h:944-945 | what is reported is such a header, or a constructed identifier with the length octet 80 |
| X690.BadExactly | native/include/openssl/asn1.h:944-945 | the error flag is set if and only if the tag is high, the form is indefinite and primitive, the length octet is ff, or no spelled length ends inside the window with its contents |
| X690.FromBigEndianHigh | native/include/openssl/asn1.h:944-945 | of the length octets the first counts most |
| X690.BigEndianInverts | native/include/openssl/asn1.h:948-949 | length octets read back to the length they were made from |
| X690.LengthParses | native/include/openssl/asn1.h:944-949 | the header of an element is read back whatever the identifier octet and the octets after it, for every length in a C int |
| X690.LenOctetsLeast | native/include/openssl/asn1.h:948-951 | no length octets for a length are fewer than those that are written |
| X690.LenOctetsSpell | native/include/openssl/asn1.h:948-951 | what is written spells the length, in five octets at most for a C int |
| X690.WrapParses | native/include/openssl/asn1_mac.h:557-567 | a sequence header in definite form, and INF_seq_start with INF_seq_end, are read back with their contents in front of the window |
| X690.HeaderLocal | native/include/openssl/asn1.h:944-945 | a header is decided by its own octets in every window that holds what it declares |
| Schema.OctetsMeetContract | native/include/openssl/asn1.h:343-362 | a primitive element codec meets everything assumed of the d2i and i2d functions handed to the macros, so the contract is not empty |
| Schema.AnythingMeetsContract | native/include/openssl/asn1.h:774 | so does a codec that accepts many tags, as ANY and CHOICE types do |
| Decode.Dec | native/include/openssl/asn1_mac.h:75-108 | a successful d2i consumes at least one octet, stays in its window and gives an object; a failed one leaves a NULL `*a` NULL |
| Decode.Run | native/include/openssl/asn1_mac.h:128-177 | the fields of a sequence move the cursor forward only and never past the enclosing length |
| Decode.DecField | native/include/openssl/asn1_mac.h:149-177 | an optional field that is not tried leaves the slot and the cursor as they were; one that succeeds consumes at least one octet and fills its slot |
| Decode.DecExp | native/include/openssl/asn1_mac.h:277-300 | a successful EXPLICIT field consumes at least one octet within its window; on a bad header the slot is untouched |
| Decode.Elems | native/include/openssl/asn1_mac.h:124-133 | the element loop ends, within the window, and in definite form exactly at its end |
| Decoder.ReadHeader | native/include/openssl/asn1.h:944-945 | the loop over the length octets computes the header that `HeaderSpelled` and `BadExactly` determine: flags, length, tag, class and start of contents |
| Decoder.CheckInfiniteEnd | native/include/openssl/asn1.h:947 | true exactly when the two end-of-contents octets are next in the window |
| Decoder.Cursor.constructor | native/include/openssl/asn1_mac.h:87-89 | `c.p` and `c.q` start at the given address, and `c.max` at the end of the window or at 0 for no length |
| Decoder.Cursor.Open | native/include/openssl/asn1_mac.h:106-108 | succeeds exactly on a constructed header of the wanted class and tag; then `c.p`, `c.slen`, `c.inf` and `c.eos` describe the contents |
| Decoder.Cursor.Get | native/include/openssl/asn1_mac.h:129-133 | the outcome of the function on the octets left; on success `c.p` has moved by what was consumed, `c.p + c.slen` is unchanged, and the buffer is as before |
| Decoder.Cursor.GetImp | native/include/openssl/asn1_mac.h:163-169 | the function sees the universal tag with the same form bit; the buffer is restored on success and on error; cursor conservation as for get |
| Decoder.Cursor.GetExp | native/include/openssl/asn1_mac.h:277-300 | the outcome of the EXPLICIT field in both forms, with the bytes consumed taken from `c.slen` on success; the buffer is restored |
| Decoder.Cursor.EndExplicit | native/include/openssl/asn1_mac.h:293-299 | only the indefinite form looks for the end-of-contents octets, and counts them in what is taken from `c.slen` |
| Decoder.Cursor.GetField | native/include/openssl/asn1_mac.h:149-177 | lookahead and dispatch of all optional macros: outcome, conservation of `c.p + c.slen`, buffer restored |
| Decoder.Cursor.GetFields | native/include/openssl/asn1_mac.h:128-353 | a whole run of field macros: slots and error point, `c.p + c.slen` constant, buffer restored at every exit |
| Decoder.Cursor.AtEnd | native/include/openssl/asn1_mac.h:124-126 | the end test of both forms; the only step that moves `c.p` without changing `c.slen` |
| Decoder.Cursor.Close | native/include/openssl/asn1_mac.h:91-93 | succeeds exactly when nothing is left in definite form, or the end-of-contents octets have been or are now consumed |
| Decoder.DecodeBody | native/include/openssl/asn1_mac.h:87-108 | start_sequence, the fields and Finish together: slots written, success, and the end cursor; buffer restored |
| Decoder.D2i | native/include/openssl/asn1_mac.h:75-108 | a decoder of any nesting depth computes its function and leaves every octet of the input as it was, on success and on every error |
| Decoder.DecodeList | native/include/openssl/asn1_mac.h:257-262 | the list decoder accepts its class and tag only, and yields the elements of its contents |
| Decoder.DecodeElems | native/include/openssl/asn1_mac.h:124-133 | the loop "while not end_sequence, get element" terminates with exactly the elements and the end cursor of its function, buffer restored |
| Transaction.D2iObject | native/include/openssl/asn1_mac.h:75-104 | decoding starts from the slots of the object that `*a` leads to, or from NULLs; a failed call leaves `*pp`, `*a` and the live objects as they were (freeing exactly what it allocated) and says what a reused object holds; a successful one moves `*pp`, returns and stores the object |
| Failure.FailureLeaves | native/include/openssl/asn1_mac.h:83-104 | after an error a reused object is as it was when the header was wrong; else the fields before the error hold what they decode to on their own, the field at the error what it left, and the later ones what they held |
| Failure.FailureKeeps | native/include/openssl/asn1_mac.h:128-133 | a failed list decoder or handed-in function leaves its slot alone, by assumption; a failed sequence decoder leaves a NULL slot NULL |
| Encode.EncFirst | native/include/openssl/asn1_mac.h:476-482 | the encoding of an object is not empty and starts with an octet of its tags, whatever the forms and whatever is NULL inside |
| Encode.EncFieldFirst | native/include/openssl/asn1_mac.h:442-555 | no octets are written for NULL, nor for an empty list by the optional list macros, and for nothing else; otherwise the first octet is that of the field |
| Wire.EmptyList | native/include/openssl/asn1_mac.h:402-471 | in every form, an empty list gives no octets under the optional list macros, and some under every other macro |
| Encoder.I2d | native/include/openssl/asn1_mac.h:379-471 | for every value, with NULL anywhere: with a NULL `pp` the length is returned and nothing written; else the same length is the distance `*pp` moves, the encoding is in place and the rest of the buffer is untouched |
| Encoder.I2dSequence | native/include/openssl/asn1_mac.h:557-570 | length macros, seq_total, put macros and finish together give one definite sequence element, in both passes |
| Encoder.LenFields | native/include/openssl/asn1_mac.h:384-471 | for every field list and all slots, NULL in mandatory fields included, the length pass sums to the size of what the put pass writes and leaves every EXPLICIT length in its own `v` |
| Encoder.LenField | native/include/openssl/asn1_mac.h:442-447 | what one length macro adds is the size of what its put macro writes |
| Encoder.PutFields | native/include/openssl/asn1_mac.h:474-555 | the put macros write one after the other, each EXPLICIT header with the length its variable holds |
| Encoder.PutField | native/include/openssl/asn1_mac.h:474-555 | one put macro writes its octets at `p`, moves `p` past them and changes nothing else |
| Encoder.PutImplicit | native/include/openssl/asn1_mac.h:476-482 | the element is written with the first octet retagged and its form bit kept |
| Encoder.I2dList | native/include/openssl/asn1_mac.h:394-396 | both passes of a list: size, and one constructed element around the elements in order, NULL elements giving no octets |
| Encoder.PutIndefinite | native/include/openssl/asn1_mac.h:563-567 | INF_seq_start, put macros and INF_seq_end write the indefinite form of the same contents |
| Encoder.LengthsExactly | native/include/openssl/asn1_mac.h:442-447 | the put pass writes the encoding if and only if every EXPLICIT field still has its own length in `v` |
| Encoder.LenFieldsShared | native/include/openssl/asn1_mac.h:442-447 | the length pass with one `v` for all EXPLICIT fields gives the same sum, and leaves in `v` the length of the last one present |
| Encoder.SharedLengthExactly | native/include/openssl/asn1_mac.h:528-533 | with what that pass leaves in one `v`, the put pass is right if and only if the contents of all that are present have one length |
| RoundTrip.RetagInverted | native/include/openssl/asn1_mac.h:163-177 | the encoder's overwrite of the first octet is undone by the decoder's, with the length unchanged, for every low tag and either form |
| RoundTrip.ExplicitStep | native/include/openssl/asn1_mac.h:277-300 | an EXPLICIT wrapper in either form is read back around any inner value that is, header and end included |
| RoundTrip.FieldsBack | native/include/openssl/asn1_mac.h:128-300 | the fields of a sequence are read back in order, before the end of the window or end-of-contents octets |
| RoundTrip.ElemsBack | native/include/openssl/asn1_mac.h:124-133 | the element loop yields exactly the encoded elements under definite and indefinite headers |
| RoundTrip.CodecBack | native/include/openssl/asn1_mac.h:75-300 | decoding an encoding in any forms, into any object and before any octets, gives the object overlaid with the value and consumes exactly the encoding |
| Ambiguity.CodecConfused | native/include/openssl/asn1_mac.h:149-177 | a value with an absent optional field that accepts the next present one is never read back |
| Ambiguity.NormTyped | native/include/openssl/asn1_mac.h:402-404 | dropping empty optional lists neither completes a value nor makes it incomplete |
| Ambiguity.RoundTripExactly | native/include/openssl/asn1_mac.h:128-300 | for every value the encoder accepts, the round trip holds if and only if, at every depth, no mandatory field or list element is NULL and no absent optional field accepts the next present one; empty optional lists come back as NULL |
| Canonical.DistinctIsClear | native/include/openssl/asn1_mac.h:149-177 | with distinct tags, a property of the macro calls alone, no complete value has an absent optional field that accepts the next present one |
| Canonical.UniqueDecoding | native/include/openssl/asn1_mac.h:128-300 | no encoding of one value is a prefix of an encoding of another, in any forms |
| Canonical.FormIndependence | native/include/openssl/asn1_mac.h:557-567 | definite and indefinite forms, mixed at any depth, decode to one value |
| Canonical.NormExactly | native/include/openssl/asn1_mac.h:402-404 | normalising changes a value if and only if some optional list macro, at any depth, is given an empty list |
| Canonical.NormEncodesSame | native/include/openssl/asn1_mac.h:402-404 | a value and its normal form encode alike, whatever is NULL, and normalising is idempotent |
| Canonical.RoundTripIdentity | native/include/openssl/asn1_mac.h:128-570 | a value without such lists comes back as itself if and only if it is complete and clear; a complete and clear value if and only if it has no such lists |
| Canonical.ReencodingIsStable | native/include/openssl/asn1_mac.h:379-570 | encode after decode after encode gives the first octets |
| Decoded.DecodedTyped | native/include/openssl/asn1_mac.h:83-177 | whatever octets are accepted, into a fresh object or a reused one whose optional slots are NULL or complete, every mandatory slot is filled and every slot has its type |
| Decoded.CompleteReusable | native/include/openssl/asn1_mac.h:83-85 | a NULL pointer and every complete object may be handed in for that |
| Canonical.TranscodingExactly | native/include/openssl/asn1_mac.h:75-570 | what any accepted octets decode to can be encoded again, and decodes to the same value if and only if it is clear; then it is a fixed point of decoding and encoding |
| Canonical.ReuseSlots | native/include/openssl/asn1_mac.h:83-177 | in an existing object, a field that writes no octets keeps its slot, and any other gets what its own decoder makes of its octets in that slot; in a fresh object the first kind is NULL and the second is not |
| Canonical.ReuseExactly | native/include/openssl/asn1_mac.h:83-85 | decoding into an existing object equals decoding into a fresh one if and only if the object holds nothing in the fields the encoding leaves out, lists being replaced by the declared `d2i_ASN1_SET` |
| Canonical.SetOfBack | native/include/openssl/asn1_mac.h:387-392 | an outermost SET OF: whatever order the encoder chooses, the multiset of elements comes back |
| SetOf.SetsBack | native/include/openssl/asn1_mac.h:387-418 | SET OF at every depth, inside sequences and lists: whatever orders the encoder chooses, the value comes back but for such orders |
| SetOf.Reordered | native/include/openssl/asn1_mac.h:387-392 | any order of the same elements counts as such an order |
| SetOf.SameSetsExactly | native/include/openssl/asn1_mac.h:387-400 | for elements without lists inside, IS_SET lists are related if and only if they are the same multiset, and other lists if and only if they are equal |
| SetOf.SameTyped | native/include/openssl/asn1_mac.h:387-418 | the order of a SET OF does not matter to completeness |
| SetOf.SameClear | native/include/openssl/asn1_mac.h:387-418 | nor to lookahead |
| Wire.FramedExactly | native/include/openssl/asn1_mac.h:106-108 | the frames of the grammar, octet by octet: identifier, any spelling of the length and the contents; or identifier, 80, contents and two zero octets |
| Wire.ConsumesElement | native/include/openssl/asn1_mac.h:75-126 | what a sequence or list decoder consumes is one such frame with its tag, whatever is inside |
| Wire.FirstOctets | native/include/openssl/asn1_mac.h:106-108 | sequences are written with the octet 30 in front and no other is taken for one; lists have the octet of their class and tag |
| Wire.SkippedExactly | native/include/openssl/asn1_mac.h:149-222 | an optional field is passed over if and only if nothing is left or the next octet is not one of those its macro tests for, given as numbers |
| Wire.WrittenStarts | native/include/openssl/asn1_mac.h:476-555 | those are octets its put macro writes |
| Wire.ExplicitIndefinite | native/include/openssl/asn1_mac.h:291-298 | in indefinite form the inner function gets all but the last two octets, two zero octets must follow what it consumes, and without them the field fails with the inner value left in the slot |
| Wire.ExplicitDefinite | native/include/openssl/asn1_mac.h:285-299 | in definite form it gets exactly the octets announced and may leave some |
| Wire.WrittenIsRead | native/include/openssl/asn1_mac.h:75-570 | what an encoder has put into a buffer is read back from there, and the other octets are as before |
| Grammar.Complete | native/include/openssl/asn1_mac.h:128-300 | every encoding that the grammar allows, in any form and with any length octets, and in which absent optional fields refuse the octet that comes next, is decoded to its value whatever follows, and every EXPLICIT element met is filled |
| Grammar.Sound | native/include/openssl/asn1_mac.h:128-300 | what is accepted is an encoding in the grammar, when definite EXPLICIT elements are filled, and its absent optional fields refuse the octet that comes next |
| Grammar.ParsesExactly | native/include/openssl/asn1_mac.h:75-300 | the decoder, lookahead and error exits included, accepts exactly the spellings in which absent optional fields refuse the octet that comes next, up to unfilled EXPLICIT elements; any tags |
| Grammar.DistinctFollows | native/include/openssl/asn1_mac.h:149-177 | with distinct tags, absent optional fields refuse the next octet in every spelling |
| Grammar.ParsesDistinct | native/include/openssl/asn1_mac.h:75-300 | with distinct tags the decoder accepts exactly the grammar without lookahead, up to unfilled EXPLICIT elements |
| Shortest.ShortestSpelling | native/include/openssl/asn1_mac.h:557-570 | however a value is spelled, the macros write it in no more octets with the same choice of forms, and in definite form too below 64 KiB |
| Shortest.IndefiniteShorter | native/include/openssl/asn1_mac.h:563-567 | the indefinite form is shorter if and only if the contents have 64 KiB or more |
| Shortest.OctetsShortest | native/include/openssl/asn1.h:948-951 | primitive elements meet what these results ask of handed-in functions |
| Locality.ReachBounds | native/include/openssl/asn1_mac.h:285-299 | a success consumes no more than its reach, and its reach stays in the window |
| Locality.ExplicitInside | native/include/openssl/asn1_mac.h:277-300 | bytes consumed by an EXPLICIT field: header, inner value, and in indefinite form one end-of-contents pair |
| Locality.LocalExactly | native/include/openssl/asn1_mac.h:75-300 | with the consumed octets fixed, the outcome is the same if and only if the window is as long as the lengths inside claim |
| Locality.FilledReach | native/include/openssl/asn1_mac.h:285-299 | where every definite EXPLICIT element is filled, no length inside claims more than is consumed |
| Locality.NoExplicitFilled | native/include/openssl/asn1_mac.h:277-300 | a codec without EXPLICIT fields at any depth fills everything it accepts |
| Locality.FilledLocal | native/include/openssl/asn1_mac.h:75-300 | without EXPLICIT fields, or with all of them filled, the outcome depends on the consumed octets alone |
| Locality.WrapFormsExactly | native/include/openssl/asn1_mac.h:557-567 | contents written by anyone decode in definite form as they do in indefinite form, if and only if no length inside claims octets past their end |
| Locality.FilledFormsAgree | native/include/openssl/asn1_mac.h:557-567 | so they do whenever every EXPLICIT element met is filled |
| Locality.FormsAgree | native/include/openssl/asn1_mac.h:557-567 | and, for a field list without EXPLICIT at any depth, for all contents |
| Counterexamples.OptionalSwallows | native/include/openssl/asn1_mac.h:149-154 | an optional OCTET STRING before a mandatory one: the round trip fails for every content |
| Counterexamples.NullShifts | native/include/openssl/asn1_mac.h:379-384 | NULL in a mandatory OCTET STRING before an optional one: encoded like the value with the two swapped, which is what comes back, for every content |
| Counterexamples.NullElementVanishes | native/include/openssl/asn1_mac.h:379-396 | NULL anywhere in a list is accepted and leaves no trace in the octets |
| Counterexamples.ExplicitOverruns | native/include/openssl/asn1_mac.h:285-299 | five octets that are accepted as contents in indefinite form and refused in definite form, because a length inside reaches past them |
| Bignum.Trim | native/include/openssl/bn.h:796-807 | cutting leading zero words gives a normal prefix and cuts nothing but zeros |
| Bignum.LeadingZeros | native/include/openssl/bn.h:796-807 | leading zero words do not change the magnitude |
| Bignum.MagnitudeSplit | native/include/openssl/bn.h:767-775 | the words further up weigh more, by a power of the base for each word below |
| Bignum.BigNum.CorrectTop | native/include/openssl/bn.h:796-807 | the loop terminates, leaves words and value unchanged, and leaves the used words trimmed and normal |
| Bignum.TrimIsLeast | native/include/openssl/bn.h:796-807 | the top that is left is the least length with the same magnitude |
| Bignum.Canonical | native/include/openssl/bn.h:767-775 | under the bn_check_top invariant magnitudes are equal if and only if the words are |
| Bignum.TrimIsCanonical | native/include/openssl/bn.h:796-807 | two representations of one magnitude, and only those, are trimmed to the same words |
| Bignum.ZeroMagnitude | native/include/openssl/bn.h:407 | a magnitude is zero exactly when every word is |
| Bignum.LargeMagnitude | native/include/openssl/bn.h:405-406 | a magnitude is too large for a word exactly when some word above the lowest is not zero |
| Bignum.AbsIsWordExactly | native/include/openssl/bn.h:405-406 | BN_abs_is_word decides equality for every word if and only if the words are normal, a single zero, or not all zero above the lowest |
| Bignum.BigNum.IsZero | native/include/openssl/bn.h:407 | in normal form BN_is_zero is value zero; out of it, exactly when some word below `top` is not zero |
| Bignum.BigNum.AbsIs | native/include/openssl/bn.h:405-406 | in normal form BN_abs_is_word is equality of the magnitude |
| Bignum.BigNum.IsOne | native/include/openssl/bn.h:408 | BN_abs_is_word of one without the sign; in normal form value one |
| Bignum.BigNum.IsWord | native/include/openssl/bn.h:409 | BN_abs_is_word and the sign, which zero ignores; in normal form equality of the signed value |
| Bignum.BigNum.IsOdd | native/include/openssl/bn.h:410 | BN_is_odd is oddness of the value, normal form or not |
| Bignum.BigNum.SetZero | native/include/openssl/bn.h:413-418 | BN_zero_ex leaves a normal, non-negative zero |
| Bignum.NumBits | native/include/openssl/bn.h:439 | the least number of bits that hold a magnitude |
| Bignum.NumBytesIsLeast | native/include/openssl/bn.h:402 | BN_num_bytes is the least number of octets that hold the magnitude |
| Bignum.ExpandIsLeast | native/include/openssl/bn.h:699-700 | the word count bn_expand asks for is the least that holds every magnitude of the given bits |
| Bignum.BigNum.Expand | native/include/openssl/bn.h:699-700 | asks for the least word count for the bits and no more, and changes nothing when there is room or no memory; on success every magnitude of the given bits fits, on failure some does not; words in use and value are kept |
| Bignum.BigNum.WordExpand | native/include/openssl/bn.h:701-702 | nothing changes when the words fit already or there is no memory; else there is room, with words in use and value kept |

## Left out

- `M_ASN1_D2I_begin` with `M_ASN1_D2I_Finish_nolen`: a field list without a header and without a length check; the field lists themselves are covered by `GetFields`.
- `M_ASN1_D2I_get_int`, `get_int_opt`, `get_x` and the `_type` macros: the same steps with another way to test or cast the result.
- `M_ASN1_D2I_get_set_strings` and the `M_ASN1_New*` macros: `d2i_ASN1_STRING_SET` and the allocation functions are not part of this model.
- Error codes, `c.line`, `c.error`, `asn1_add_error`: reporting only; every `goto err` is the one failure outcome.
- Any leniency of the declared helpers beyond X.690 (missing end-of-contents octets at the end of a window, a sequence tag of another class): their bodies are not part of this model.
- The high-tag-number form: the macros test and overwrite one identifier octet, so tags are 0 to 30 and longer identifiers are reported as bad headers.
- Widths of `int` and `long`: lengths are unbounded integers; the theorems about encodings assume that the length pass returns a C int, and a header with more length octets is read exactly.
- The order that `IS_SET` gives to the elements of a SET OF: the sorting is not part of this model; `SetsBack` holds for every order at every depth.
- Canonical.ReuseExactly: for lists it rests on an assumption about `d2i_ASN1_SET`, whose body is not part of this model: it is taken to build a new list and to leave a list that is passed in as it was on failure.
- Canonical.SetOfBack: the outermost list only; `SetsBack` covers the lists inside.
- Objects inside the object of a call: they are values in the slots, so aliasing between nested objects and their individual allocation and release are not captured.
- NULL handed to an i2d function that is not built from the macros, or to `i2d_ASN1_SET`: taken to give length 0 and to write nothing, as `M_ASN1_I2D_vars` does for those that are.
- Failure.FailureKeeps: for handed-in functions and `d2i_ASN1_SET` it is an assumption that a failed call leaves the slot as it was.
- Functions handed to the macros that fall outside the contract: elements that may start with end-of-contents octets, decoders that look beyond what they consume, and those that do not read back what their encoder writes.
- BigNum.WordExpand: `bn_expand2` is only declared; it is taken to give exactly the words asked for and to keep those in use.
- `flags`, `BN_with_flags`, `bn_pollute` and the debug variants of `bn_fix_top`: bookkeeping and debugging.
- All other headers, `native/interface.c` and the Java sources: prototypes, constants, calls into code that is not here, and plain accessors.
