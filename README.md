# mserialize visit, binlog::ToStringVisitor and the mserialize value codecs

This project models three connected parts of binlog's serialization layer and proves properties about them.

**The mserialize visit engine.** `mserialize::visit(tag, visitor, stream)` reads a type tag string and a byte stream. The visitor receives an ordered sequence of events: one primitive value, or SequenceBegin/End, TupleBegin/End, VariantBegin/End, Null, Enum, StructBegin/End, FieldBegin/End, RepeatBegin/End. Otherwise the engine throws. The tag grammar is:

- arithmetic codes: `y` bool, `c` char, `b`/`B` int8/uint8, `s`/`S` int16/uint16, `i`/`I` int32/uint32, `l`/`L` int64/uint64;
- `[elem`: a sequence, preceded in the data by a 32-bit little-endian count;
- `(tags)`: a tuple;
- `<alts>`: a variant, preceded in the data by a one-byte discriminator. The alternative `0` is null.
- `` {Name`field'tag...} ``: a structure. The field-less reference `{Name}` names the structure defined in the enclosing tag by exactly that name.
- `` /code`Name'hex`enumerator'...\ ``: an enumeration.

The model has these parts:

- **Engine.** A pure, depth-bounded function `Engine.Visit` over the tag text and the bytes. It is modelled on the behaviour that `test/unit/mserialize/visit.cpp` pins down.
- **Serialization.** A typed description of values (`Serialization.Val`), the bytes `mserialize::serialize` writes for them, and the events a visit should report.
- **Main correctness theorem** (`VisitCorrect.VisitOfSerialized`). Visiting the serialization of any well-typed value under its printed tag reports exactly those events and consumes exactly the value's bytes. The tag must be well formed: its names hold no grammar character except the balanced angle brackets of a template instance such as `Pair<A,B>`.
- **Reference visitors of the test file** (`ToString`, `CountingVisitor`, `StoreT`). These are classes that update their fields. Each test scenario is proved as a method or lemma.

**binlog::ToStringVisitor.** This visitor turns the engine's events into human-readable text.

- The visitor's fields (`_state`, `_seqDepth`, `_emptyStruct`, the output) are stated as a value, and each call on an event as a function (`BinlogToString.Step`).
- The class `BinlogToString.ToStringVisitor` updates these fields in place, one method per `visit` overload. Each method is proved to agree with `Step`.
- Main theorem (`BinlogToString.ToStringOfDoc`): for any value the engine can describe, the visitor writes exactly the value's pretty text. That text has elements separated by ", ", sequences in `[]`, tuples in `()` and structures as `Name{ a: 1 }`.

**The value codecs.** `mserialize::deserialize` is modelled as a type-directed decoder (`Codec.Deserialize`). It is proved to invert `serialize` on every well-typed value, and to fail on every truncated stream. On top of it, the documented examples are modelled:

- length-prefixed `std::string`;
- the adapted structs `Alpha`, `Pair` and `Beta`, where `Beta` pairs getters with setters;
- a tag written as a string in front of its value;
- the self-referential `Node` tag.

Integers are little-endian. Signed values are two's complement of the type's width.

The implementation of the engine (`mserialize/visit.hpp`, `tag.hpp`) and `ToStringVisitor.cpp` are not part of this model. Their behaviour is reconstructed from the declarations and from the exact inputs and outputs their tests assert.

Module layout (one file each):

| module | contents |
|---|---|
| `Wrappers` | Option and Result |
| `Bytes` | arithmetic types, little-endian integer codec |
| `Text` | decimal and hexadecimal text |
| `Tags` | tag parsing |
| `Grammar` | tags as trees and their printing |
| `Engine` | the visit engine |
| `Serialization` | values, bytes and events |
| `VisitCorrect` | engine correctness |
| `VisitScenarios` | visit test cases |
| `ReferenceVisitors` | ToString, CountingVisitor, StoreT |
| `Rendering` and `TreeRendering` | ToString texts of the visit tests |
| `BinlogToString` | ToStringVisitor |
| `Codec` | deserialize |
| `Documentation` | the documented snippets |

## Model

| member | source | states |
|---|---|---|
| Bytes.IntRoundTrip | test/unit/mserialize/visit.cpp:169-184 | decoding the little-endian two's-complement bytes of any integer in range gives back that integer |
| Bytes.ValueRoundTrip | test/unit/mserialize/visit.cpp:169-184 | decoding the bytes of any bool, char or integer at its type gives back the same value |
| Bytes.LittleEndianRoundTrip | test/unit/mserialize/visit.cpp:195-207 | an n-byte little-endian encoding of u < 256^n decodes to u |
| Bytes.CountRoundTrip | test/unit/mserialize/visit.cpp:195-207 | a 32-bit sequence count round-trips through its 4 bytes |
| Bytes.BitsRoundTrip | test/unit/mserialize/visit.cpp:169-184 | the unsigned bit pattern of a signed value converts back to the value |
| Bytes.DecodeValue | test/unit/mserialize/visit.cpp:169-193 | decoding the width of a type always yields a valid value of that type |
| Text.DigitsRoundTrip | test/unit/mserialize/visit.cpp:59 | decimal and hexadecimal digit strings read back to the number and have no leading zero |
| Text.SignedRoundTrip | test/unit/mserialize/visit.cpp:277-313 | signed text, with a leading '-' for negative values, reads back to the number |
| Text.HexInjective | test/unit/mserialize/visit.cpp:277-344 | distinct values get distinct hex text, so the hex value in an Enum event identifies the value |
| Tags.ArithmeticOfCode | test/unit/mserialize/visit.cpp:169-193 | a recognised code maps back to the same code |
| Tags.CodeIsRecognised | test/unit/mserialize/visit.cpp:169-184 | every arithmetic type's code is recognised as that type |
| Tags.Find | test/unit/mserialize/visit.cpp:599-608 | the result is the first position at or after the start where the pattern occurs, and no result means the pattern occurs nowhere from the start on |
| Tags.Enumerator | test/unit/mserialize/visit.cpp:270-344 | a non-empty enumerator name is listed in the tag with exactly that hex value |
| Tags.ParseFields | test/unit/mserialize/visit.cpp:360-372 | a field list parses only if it ends with '}', and is empty exactly when it starts with '}' |
| Grammar.PrintBalanced | test/unit/mserialize/visit.cpp:456-558 | a printed tag is balanced in each bracket pair, which is what lets nested tags be split |
| Grammar.TagEndOfPrint | test/unit/mserialize/visit.cpp:232-253 | the end of a printed tag is found exactly, whatever text follows it |
| Grammar.CompleteOfPrint | test/unit/mserialize/visit.cpp:110-128 | a printed tag is one complete tag, as the engine requires at top level |
| Grammar.SplitPrintAll | test/unit/mserialize/visit.cpp:232-253 | the concatenated tags of a tuple split back into the same tags |
| Grammar.ParseFieldsOfPrint | test/unit/mserialize/visit.cpp:367-372 | a printed field list parses back into its names and tags, in order |
| Grammar.ParseStructOfPrint | test/unit/mserialize/visit.cpp:360-413 | a printed structure tag parses back into its name, field text and fields |
| Grammar.ParseEnumOfPrint | test/unit/mserialize/visit.cpp:277-344 | a printed enum tag parses back into its code, name and enumerators |
| Grammar.TemplateName | test/unit/mserialize/documentation.cpp:29-34 | a template instance name such as `Pair<A,B>` is a name of the grammar, and the same name with its closing angle bracket missing is not |
| Engine.Visit | test/unit/mserialize/visit.cpp:456-570 | the engine never reports more bytes left than it was given, and fails with the recursion error once its nesting budget is used up |
| Engine.VisitArithmetic | test/unit/mserialize/visit.cpp:169-193 | an arithmetic tag succeeds exactly when the stream holds the type's width |
| Engine.VisitSequence | test/unit/mserialize/visit.cpp:195-223 | a sequence consumes no more than the stream holds |
| Engine.VisitTuple | test/unit/mserialize/visit.cpp:225-253 | a tuple consumes no more than the stream holds |
| Engine.VisitVariant | test/unit/mserialize/visit.cpp:255-268 | a variant consumes no more than the stream holds |
| Engine.VisitStruct | test/unit/mserialize/visit.cpp:360-413 | a structure consumes no more than the stream holds |
| Engine.VisitEnum | test/unit/mserialize/visit.cpp:270-358 | an enum consumes no more than the stream holds |
| Engine.VisitTag | test/unit/mserialize/visit.cpp:110-128 | visit rejects a tag that is not one complete tag, and consumes no more than the stream holds |
| Engine.RepeatedFails | test/unit/mserialize/visit.cpp:456-558 | a failing element makes the whole sequence fail with the same error |
| Engine.VariantFails | test/unit/mserialize/visit.cpp:524-558 | a failing alternative makes the variant fail with the same error |
| Engine.StructFails | test/unit/mserialize/visit.cpp:560-570 | a failing field makes the structure fail with the same error |
| Serialization.MaxDepth | test/unit/mserialize/visit.cpp:456-558 | the depth of a collection bounds the depth of each element, and is 0 for no elements |
| Serialization.MaxDepthAttained | test/unit/mserialize/visit.cpp:456-558 | the bound is the depth of one of the elements, so it is the least bound |
| VisitCorrect.NoBytesIffEmpty | test/unit/mserialize/visit.cpp:579-597 | a value serializes to no bytes if and only if it is made only of empty tuples and structures |
| VisitCorrect.EncodesToNothingOfTyped | test/unit/mserialize/visit.cpp:579-597 | the engine's zero-byte test on a tag agrees with whether values of that type serialize to nothing, in both directions |
| VisitCorrect.StructDefOfTyped | test/unit/mserialize/visit.cpp:374-413 | a structure tag, or a reference {Name} to an enclosing definition, resolves to the definition's fields |
| VisitCorrect.VisitOfSerialized | test/unit/mserialize/visit.cpp:110-128 | for every well-typed value within the nesting budget, visiting its serialization followed by any bytes reports exactly its events and leaves exactly the following bytes |
| VisitCorrect.VisitTagSerialized | test/unit/mserialize/visit.cpp:110-128 | mserialize::visit of a printed tag over a serialized value succeeds with the value's events and the remaining stream |
| VisitCorrect.ResolvesAt | test/unit/mserialize/visit.cpp:374-413 | the first definition of a structure in the tag is what every reference {Name} in it stands for |
| VisitScenarios.ArithmeticVisit | test/unit/mserialize/visit.cpp:169-184 | visiting one serialized scalar delivers exactly one primitive event equal to it and consumes all of it |
| VisitScenarios.IntegerLimits | test/unit/mserialize/visit.cpp:169-184 | the minimum and the maximum of every integer type are each delivered as one event equal to the input |
| VisitScenarios.BoolLimits | test/unit/mserialize/visit.cpp:169-184 | false and true each come back as one bool event |
| VisitScenarios.UnknownCodeFails | test/unit/mserialize/visit.cpp:186-193 | the unknown code `X` is rejected whatever the stream |
| VisitScenarios.FreestandingNullFails | test/unit/mserialize/visit.cpp:572-577 | a bare `0` tag is rejected whatever the stream |
| VisitScenarios.NestedSequenceWithin | test/unit/mserialize/visit.cpp:456-474 | k < 2048 nested `[` levels around `i` succeed with 2k+1 events and consume everything |
| VisitScenarios.NestedSequenceBeyond | test/unit/mserialize/visit.cpp:476-492 | 2048 or more nested `[` levels fail with the recursion error |
| VisitScenarios.NestedTupleWithin | test/unit/mserialize/visit.cpp:494-510 | k < 2048 nested tuple levels succeed with 2k+1 events |
| VisitScenarios.NestedTupleBeyond | test/unit/mserialize/visit.cpp:512-522 | 2048 or more nested tuple levels fail with the recursion error |
| VisitScenarios.NestedVariantWithin | test/unit/mserialize/visit.cpp:524-544 | k < 2048 nested variant levels succeed with 2k+1 events |
| VisitScenarios.NestedVariantBeyond | test/unit/mserialize/visit.cpp:546-558 | 2048 or more nested variant levels fail with the recursion error |
| VisitScenarios.SelfReferenceRejected | test/unit/mserialize/visit.cpp:560-570 | a structure whose only field is a reference to itself, such as `{R`r'{R}}`, fails with the recursion error whatever the stream |
| VisitScenarios.RepeatCollapsed | test/unit/mserialize/visit.cpp:579-584 | a non-empty sequence whose element serializes to nothing reports SequenceBegin, RepeatBegin, one element's events, RepeatEnd, SequenceEnd |
| VisitScenarios.SequenceOfEmptyStruct | test/unit/mserialize/visit.cpp:586-597 | `[{S`a'()`b'(()())}` with any non-zero count reports 18 events |
| VisitScenarios.SequenceOfRecursiveStruct | test/unit/mserialize/visit.cpp:415-432 | `[{R`r'[{R}}` with m empty children reports 8+6m events |
| VisitScenarios.OtherReferenceUndefined | test/unit/mserialize/visit.cpp:599-608 | `{Foo` does not occur as a definition in `{FooBar`f'{Foo}}`, so a name prefix is not a match |
| VisitScenarios.UndefinedReferenceIsEmpty | test/unit/mserialize/visit.cpp:599-608 | an undefined reference inside another structure is visited as an empty structure |
| VisitScenarios.FooBarHolder | test/unit/mserialize/visit.cpp:599-608 | the tag of that test is the printed holder structure |
| ReferenceVisitors.WrittenAppend | test/unit/mserialize/visit.cpp:48-94 | ToString's text of two event streams in a row is the first text followed by the second |
| ReferenceVisitors.ToString.constructor | test/unit/mserialize/visit.cpp:55 | a new ToString holds no text |
| ReferenceVisitors.ToString.Visit | test/unit/mserialize/visit.cpp:57-91 | each callback appends that event's text |
| ReferenceVisitors.ToString.VisitEach | test/unit/mserialize/visit.cpp:48-94 | a run of callbacks appends the text of the whole stream |
| ReferenceVisitors.CountingVisitor.constructor | test/unit/mserialize/visit.cpp:98 | the count starts at zero |
| ReferenceVisitors.CountingVisitor.Visit | test/unit/mserialize/visit.cpp:101-105 | every callback adds one |
| ReferenceVisitors.CountingVisitor.VisitEach | test/unit/mserialize/visit.cpp:96-108 | a run of callbacks adds the number of events |
| ReferenceVisitors.Store.constructor | test/unit/mserialize/visit.cpp:22-23 | the value starts default-initialised with no visit |
| ReferenceVisitors.Store.Visit | test/unit/mserialize/visit.cpp:28-39 | a value of the expected type is kept and a second one fails; any other callback fails |
| ReferenceVisitors.Store.Result | test/unit/mserialize/visit.cpp:41-45 | a value is available exactly when one visit happened and nothing failed |
| ReferenceVisitors.Store.VisitEach | test/unit/mserialize/visit.cpp:19-46 | the stored result is the value exactly when the stream is one event of the expected type |
| ReferenceVisitors.SerializedAlone | test/unit/mserialize/visit.cpp:110-128 | visiting a lone serialized value reports its events and leaves nothing |
| ReferenceVisitors.VisitAndShow | test/unit/mserialize/visit.cpp:121-127 | the visit result is ToString's text of the visited events, or the engine's error |
| ReferenceVisitors.SerializeAndShow | test/unit/mserialize/visit.cpp:110-128 | serialize_and_visit with ToString gives the text of the value's events for every serializable value |
| ReferenceVisitors.SerializeAndStore | test/unit/mserialize/visit.cpp:110-128 | serialize_and_visit with StoreT gives back any valid scalar |
| ReferenceVisitors.ArithmeticLimits | test/unit/mserialize/visit.cpp:169-184 | the minimum and maximum of each integer type survive serialize_and_visit with StoreT |
| ReferenceVisitors.CountEvents | test/unit/mserialize/visit.cpp:96-108 | CountingVisitor's value is the number of events of a successful visit, or the engine's error |
| ReferenceVisitors.SerializeTimes | test/unit/mserialize/visit.cpp:468-471 | the stream-building loop writes n copies of the value's bytes |
| ReferenceVisitors.DeeplyNestedSequence | test/unit/mserialize/visit.cpp:456-492 | the count is 2k+1 below 2048 levels and the recursion error at or above it |
| ReferenceVisitors.DeeplyNestedTuple | test/unit/mserialize/visit.cpp:494-522 | the count is 2k+1 below 2048 levels and the recursion error at or above it |
| ReferenceVisitors.DeeplyNestedVariant | test/unit/mserialize/visit.cpp:524-558 | the count is 2k+1 below 2048 levels and the recursion error at or above it |
| ReferenceVisitors.SequenceOfRecursiveStructCount | test/unit/mserialize/visit.cpp:415-432 | counting gives 8+6m events, 392 for m = 64 |
| ReferenceVisitors.SequenceOfEmptyStructCount | test/unit/mserialize/visit.cpp:586-597 | counting gives 18 events for any non-zero size |
| ReferenceVisitors.RejectedTags | test/unit/mserialize/visit.cpp:186-193 | a self-recursive structure fails with the recursion error; `0` and `X` are rejected as tags |
| Rendering.SequenceText | test/unit/mserialize/visit.cpp:66-67 | a sequence of non-empty elements is written as `SB(n,elem)[ ` + each element + `] ` |
| Rendering.RepeatText | test/unit/mserialize/visit.cpp:90-91 | a sequence of zero-byte elements is written with one `RB(n,elem)( ... ) ` block |
| Rendering.TupleText | test/unit/mserialize/visit.cpp:70-71 | a tuple is written as `TB(tags)( ` + components + `) ` |
| Rendering.NullText | test/unit/mserialize/visit.cpp:74-76 | a null alternative is written as `VB(d,0)< {null} > ` |
| Rendering.AlternativeText | test/unit/mserialize/visit.cpp:74-75 | a non-null alternative is written between `VB(d,tag)< ` and `> ` |
| Rendering.EnumText | test/unit/mserialize/visit.cpp:78-81 | an enum value is written as `E(name::enumerator,code,0xhex) ` |
| Rendering.ListedEnumerator | test/unit/mserialize/visit.cpp:277-313 | a listed value gets the enumerator listed first for its hex value |
| Rendering.UnlistedEnumerator | test/unit/mserialize/visit.cpp:270-275 | a value not listed gets an empty enumerator name |
| Rendering.StructText | test/unit/mserialize/visit.cpp:84-88 | a structure is written as `StB(name,fields) { ` + `f(tag): value , ` per field + `} ` |
| Rendering.ScalarSequenceText | test/unit/mserialize/visit.cpp:202-223 | a sequence of scalars is written as the values separated and followed by spaces |
| Rendering.EmptyVectorOfInt | test/unit/mserialize/visit.cpp:195-200 | the empty vector of int gives `SB(0,i)[ ] ` |
| Rendering.EmptyTuple | test/unit/mserialize/visit.cpp:225-230 | the empty tuple gives `TB()( ) ` |
| Rendering.NullPointer | test/unit/mserialize/visit.cpp:255-260 | a null pointer gives `VB(0,0)< {null} > ` |
| Rendering.PointerToInt | test/unit/mserialize/visit.cpp:262-268 | a pointer to 123 gives `VB(1,i)< 123 > ` |
| Rendering.ScalarVector | test/unit/mserialize/visit.cpp:202-223 | any vector of scalars of one type gives `SB(n,code)[ ` + the values + `] ` |
| Rendering.VectorOfInt | test/unit/mserialize/visit.cpp:202-207 | {1..6} gives `SB(6,i)[ 1 2 3 4 5 6 ] ` |
| Rendering.EmptyStruct | test/unit/mserialize/visit.cpp:360-365 | the empty structure gives `StB(Empty,) { } ` |
| Rendering.NotAdaptedEnum | test/unit/mserialize/visit.cpp:270-275 | an enum with no enumerators gives `E(OpaqueEnum::,i,0x40) ` |
| Rendering.SequenceOfEmptyTuple | test/unit/mserialize/visit.cpp:579-584 | n empty tuples give one repeat block, `SB(1024,())[ RB(1024,())( TB()( ) ) ] ` for 1024 |
| Rendering.EmptyPrefixOfContainingStruct | test/unit/mserialize/visit.cpp:599-608 | `{FooBar`f'{Foo}}` gives `StB(FooBar,`f'{Foo}) { f({Foo}): StB(Foo,) { } , } ` |
| TreeRendering.TreeText | test/unit/mserialize/visit.cpp:384-400 | the visit text of any tree is the recursive text the test builds, with null children as `VB(0,0)< {null} >` |
| TreeRendering.TreeDepth | test/unit/mserialize/visit.cpp:374-413 | a tree's value nests twice its height |
| TreeRendering.TreeResolves | test/unit/mserialize/visit.cpp:156-163 | the custom Tree tag defines the structure its `{Tree}` references stand for |
| TreeRendering.RecursiveStruct | test/unit/mserialize/visit.cpp:374-413 | every valid tree of height at most 1024 is visited to its recursive text |
| TreeRendering.SevenNodesShown | test/unit/mserialize/visit.cpp:376-412 | the seven-node tree of the test gives the nested text of nodes 1 to 7 |
| TreeRendering.TupleOfRecursiveStruct | test/unit/mserialize/visit.cpp:434-454 | a tuple of a tree, an int and a tree gives `TB(...)( ` + the three texts + `) ` |
| BinlogToString.AfterComma | include/binlog/ToStringVisitor.hpp:64 | comma() writes ", " only between elements and leaves the comma state due inside a sequence |
| BinlogToString.TemplateStartIsFirst | test/unit/binlog/TestToStringVisitor.cpp:175-180 | the template arguments start at the first '<' of the name |
| BinlogToString.BeforeTemplateIsPrefix | test/unit/binlog/TestToStringVisitor.cpp:175-180 | the name written is the prefix before the first '<', or the whole name when there is none |
| BinlogToString.StepInput | include/binlog/ToStringVisitor.hpp:42 | only a char sequence consumes input, and only a short input makes it throw |
| BinlogToString.RunExtends | include/binlog/ToStringVisitor.hpp:26-78 | the visitor only appends to its output |
| BinlogToString.RunAppend | include/binlog/ToStringVisitor.hpp:26-78 | two stretches of calls compose, stopping at the first throw |
| BinlogToString.ToStringVisitor.constructor | include/binlog/ToStringVisitor.hpp:29 | a new visitor is in state Normal at depth 0 with no empty structure and no output |
| BinlogToString.ToStringVisitor.Comma | include/binlog/ToStringVisitor.hpp:64 | writes ", " in state Seq, moves SeqBegin to Seq, changes nothing in Normal |
| BinlogToString.ToStringVisitor.EnterSeq | include/binlog/ToStringVisitor.hpp:66 | opens a sequence level: state SeqBegin, depth one more |
| BinlogToString.ToStringVisitor.LeaveSeq | include/binlog/ToStringVisitor.hpp:68 | closes a level: depth one less, state Seq inside an outer level and Normal otherwise |
| BinlogToString.ToStringVisitor.VisitValue | include/binlog/ToStringVisitor.hpp:32-40 | a comma if due, then the value: true/false for bools and a number for every integer type including int8/uint8 |
| BinlogToString.ToStringVisitor.SequenceBegin | include/binlog/ToStringVisitor.hpp:42 | a char sequence is taken and its size bytes of input are written raw, or it throws if the input is short; any other sequence writes "[" and opens a level |
| BinlogToString.ToStringVisitor.SequenceEnd | include/binlog/ToStringVisitor.hpp:43 | writes "]" and closes the level |
| BinlogToString.ToStringVisitor.TupleBegin | include/binlog/ToStringVisitor.hpp:45 | a comma if due, "(" and a new level; the tuple is not taken |
| BinlogToString.ToStringVisitor.TupleEnd | include/binlog/ToStringVisitor.hpp:46 | writes ")" and closes the level |
| BinlogToString.ToStringVisitor.VariantBegin | include/binlog/ToStringVisitor.hpp:48 | declines the variant and writes nothing |
| BinlogToString.ToStringVisitor.VariantEnd | include/binlog/ToStringVisitor.hpp:49 | leaves the output and the printer state as they were |
| BinlogToString.ToStringVisitor.Null | include/binlog/ToStringVisitor.hpp:50 | a comma if due, then "{null}" |
| BinlogToString.ToStringVisitor.Enum | include/binlog/ToStringVisitor.hpp:52 | a comma if due, then the enumerator, or "0x" and the hex value when the enumerator is empty |
| BinlogToString.ToStringVisitor.StructBegin | include/binlog/ToStringVisitor.hpp:54 | writes the name up to its first '<'; an empty field list sets the empty-structure flag, otherwise "{ " opens a level |
| BinlogToString.ToStringVisitor.StructEnd | include/binlog/ToStringVisitor.hpp:55 | an empty structure only clears the flag; otherwise " }" closes the level |
| BinlogToString.ToStringVisitor.FieldBegin | include/binlog/ToStringVisitor.hpp:57 | a comma if due, then "name: " unless the name is empty; the value then starts with no comma |
| BinlogToString.ToStringVisitor.FieldEnd | include/binlog/ToStringVisitor.hpp:58 | the next field needs a comma; nothing is written |
| BinlogToString.ToStringVisitor.RepeatBegin | include/binlog/ToStringVisitor.hpp:60 | leaves the output and the printer state as they were; the count is written at RepeatEnd |
| BinlogToString.ToStringVisitor.RepeatEnd | include/binlog/ToStringVisitor.hpp:61 | for a size above one writes " ... <repeats n times>"; otherwise nothing |
| BinlogToString.ToStringVisitor.Visit | include/binlog/ToStringVisitor.hpp:31-61 | each overload updates the fields, the output and the input exactly as Step says for its event |
| BinlogToString.ToStringVisitor.VisitAll | include/binlog/ToStringVisitor.hpp:26-78 | a run of events leaves the visitor as Run says, stopping at the first throw |
| BinlogToString.ToStringOfDoc | test/unit/binlog/TestToStringVisitor.cpp:65-262 | for every value shape the engine produces, a fresh visitor fed its events writes exactly its pretty text, consumes exactly its characters and ends in state Normal at depth 0 |
| BinlogToString.EmptyOutput | test/unit/binlog/TestToStringVisitor.cpp:41-44 | no events give "" |
| BinlogToString.Boolean | test/unit/binlog/TestToStringVisitor.cpp:46-56 | true gives "true" and false gives "false" |
| BinlogToString.Arithmetic | test/unit/binlog/TestToStringVisitor.cpp:58-63 | 123 of every integer type gives "123" |
| BinlogToString.EmptySequenceOfInt | test/unit/binlog/TestToStringVisitor.cpp:65-70 | gives "[]" |
| BinlogToString.SequenceOfInt | test/unit/binlog/TestToStringVisitor.cpp:72-81 | gives "[1, 2, 3]" |
| BinlogToString.SequenceOfChar | test/unit/binlog/TestToStringVisitor.cpp:83-88 | the char sequence is taken and gives "abc" |
| BinlogToString.VisitIntPair | test/unit/binlog/TestToStringVisitor.cpp:93-104 | an inner sequence of two ints writes "[a, b]" after a comma if due |
| BinlogToString.SeqOfSeqOfInt | test/unit/binlog/TestToStringVisitor.cpp:90-108 | gives "[[1, 2], [3, 4], [5, 6]]" |
| BinlogToString.SeqOfSeqOfChar | test/unit/binlog/TestToStringVisitor.cpp:110-120 | gives "[ab, cd, ef]" |
| BinlogToString.EmptyTuple | test/unit/binlog/TestToStringVisitor.cpp:122-127 | gives "()" |
| BinlogToString.TupleOfIntBoolChar | test/unit/binlog/TestToStringVisitor.cpp:129-138 | gives "(1, true, a)" |
| BinlogToString.SeqOfVariant | test/unit/binlog/TestToStringVisitor.cpp:140-155 | gives "[{null}, 1, 2]" |
| BinlogToString.SeqOfEnum | test/unit/binlog/TestToStringVisitor.cpp:157-166 | gives "[b, a, 0x3]" |
| BinlogToString.EmptyStruct | test/unit/binlog/TestToStringVisitor.cpp:168-173 | gives "Empty" |
| BinlogToString.EmptyStructTemplate | test/unit/binlog/TestToStringVisitor.cpp:175-180 | "Empty<A,B,C>" gives "Empty" |
| BinlogToString.VisitField | test/unit/binlog/TestToStringVisitor.cpp:185-190 | a field writes a comma if due, its label and its value |
| BinlogToString.VisitStructOfOne | test/unit/binlog/TestToStringVisitor.cpp:199-203 | a one-field structure writes "Name{ f: v }" |
| BinlogToString.SimpleStruct | test/unit/binlog/TestToStringVisitor.cpp:182-194 | gives "Alpha{ a: 1, b: false }" |
| BinlogToString.PairOfStructs | test/unit/binlog/TestToStringVisitor.cpp:196-214 | gives "(Alpha{ a: 1 }, Empty, Beta{ b: true })" |
| BinlogToString.StructOfStructs | test/unit/binlog/TestToStringVisitor.cpp:216-233 | gives "Alpha{ ccc: Beta{ d: 1 }, e: Empty }" |
| BinlogToString.EmptyFieldName | test/unit/binlog/TestToStringVisitor.cpp:235-244 | gives "BoundedInt{ 1024 }" |
| BinlogToString.Repeat | test/unit/binlog/TestToStringVisitor.cpp:246-262 | a value repeated at most once is shown alone, and one repeated n > 1 times is shown once followed by " ... <repeats n times>"; so 1 gives "1" and 9 gives "1 ... <repeats 9 times>" |
| Codec.FieldTags | test/unit/mserialize/documentation.cpp:22-23 | the tags read for a structure are its fields' tags in declared order |
| Codec.DeserializeCount | test/unit/mserialize/documentation.cpp:149-176 | reading count elements yields exactly count values and never more bytes than given |
| Codec.DeserializeAll | test/unit/mserialize/documentation.cpp:178-196 | reading members yields one value per member, in order |
| Codec.DeserializeSerialized | test/unit/mserialize/documentation.cpp:178-196 | deserializing the serialization of any well-typed value followed by any bytes gives back the value and exactly the following bytes |
| Codec.ShortReadFails | test/unit/mserialize/documentation.cpp:164-172 | with the stream failing on a short read, any strict prefix of a serialized value fails to deserialize |
| Codec.SequenceRoundTrip | test/unit/mserialize/documentation.cpp:149-176 | a count and its elements read back as the sequence |
| Codec.VariantRoundTrip | test/unit/mserialize/visit.cpp:255-268 | a discriminator byte and its alternative read back as the variant |
| Documentation.Raw | test/unit/mserialize/documentation.cpp:151-160 | a string's characters are written one byte each, unchanged |
| Documentation.DeserializeString | test/unit/mserialize/documentation.cpp:164-172 | a decoded string accounts for exactly its 4-byte size, its characters and the rest |
| Documentation.StringRoundTrip | test/unit/mserialize/documentation.cpp:149-176 | a serialized std::string followed by any bytes reads back as the same string and the following bytes |
| Documentation.StringShortRead | test/unit/mserialize/documentation.cpp:164-172 | any strict prefix of a serialized string fails to read |
| Documentation.EmptyStringRoundTrip | test/unit/mserialize/documentation.cpp:155-172 | the empty string is written as four zero bytes and reads back, consuming exactly those |
| Documentation.StringIsSequence | test/unit/mserialize/documentation.cpp:209-212 | std::string has tag `[c` and the generic serializer writes the same bytes for it |
| Documentation.AlphaRoundTrip | test/unit/mserialize/documentation.cpp:19-23 | Alpha is written as a then b, and reads back to equal a and b |
| Documentation.AlphaExample | test/unit/mserialize/documentation.cpp:185-193 | Alpha{30, "foo"} reads back with a == 30 and b == "foo" and nothing left |
| Documentation.AlphaIsAggregate | test/unit/mserialize/documentation.cpp:22-23 | Alpha's bytes are those of a structure of its members, and the generic decoder reads them back |
| Documentation.PairRoundTrip | test/unit/mserialize/documentation.cpp:30-34 | Pair<A,B> of any member types is written as a then b and reads back |
| Documentation.SetC | test/unit/mserialize/documentation.cpp:45-46 | setC changes c and leaves d |
| Documentation.SetD | test/unit/mserialize/documentation.cpp:48-49 | setD changes d and leaves c |
| Documentation.DeserializeBeta | test/unit/mserialize/documentation.cpp:53-54 | reading a Beta consumes its members' bytes and no more |
| Documentation.BetaRoundTrip | test/unit/mserialize/documentation.cpp:39-54 | getC/getD on serialize and setC/setD on deserialize pair up by position, so any Beta reads back into any target object |
| Documentation.BetaIsAggregate | test/unit/mserialize/documentation.cpp:53 | Beta's bytes are those of a structure of a string and a 32-bit value |
| Documentation.ReadTagged | test/unit/mserialize/documentation.cpp:217-226 | reading a tag and visiting with it consumes at least the tag's size |
| Documentation.TaggedVisit | test/unit/mserialize/documentation.cpp:198-231 | a tag written as a string before a value reads back and visits the value, leaving the rest of the stream |
| Documentation.EmptyStringTagged | test/unit/mserialize/documentation.cpp:198-231 | the documented empty std::string visits as SequenceBegin(0, "c"), SequenceEnd |
| Documentation.NodeTagText | test/unit/mserialize/documentation.cpp:120-131 | the Node tag prints as `{Node`value'i`next'<0{Node}>}` |
| Documentation.NodeResolves | test/unit/mserialize/documentation.cpp:120-131 | its `{Node}` reference stands for the enclosing Node |
| Documentation.NodeFacts | test/unit/mserialize/documentation.cpp:120 | a list of nodes linked by next is a well-typed value nesting 2n+2 deep |
| Documentation.NodeEvents | test/unit/mserialize/documentation.cpp:120-131 | visiting a list of n+1 nodes reports n+1 StructBegin and StructEnd events for Node and one Null |
| Documentation.NodeListVisit | test/unit/mserialize/documentation.cpp:120-131 | visiting the serialization of a list of at most 1024 nodes under the Node tag succeeds, consumes everything, and enters and leaves Node once per node |
| Documentation.ThreeNodes | test/unit/mserialize/documentation.cpp:120-131 | a three-node list visits with three StructBegin and three StructEnd events for Node |

## Left out

- Floating point. The `float`, `double` and `long double` tags and their numeric formatting are not modelled. `Beta::d` is kept as its 32-bit pattern.
- File and stream I/O. `std::ofstream`, `std::ifstream` and `std::remove` are replaced by byte sequences. A stream set to fail on a short read is modelled as a decode that returns no value.
- `binlog::detail::OstreamBuffer` and the Boost.Test scaffolding. The output is a `seq<char>` and a failed test assertion is a flag.
- Macro and compile-time plumbing: `MSERIALIZE_MAKE_*`, `CustomTag` and `CustomSerializer` specialisations, and friend grants. This includes `Gamma`, `Phi`, `Epsilon`, `Delta` and `Triplet` of documentation.cpp, which add only tag strings. Only the tag strings and the member order they produce are modelled.
- The Windows-only depth of 128 (test/unit/mserialize/visit.cpp:566). The model uses the asserted limit: 2047 nestings succeed and 2048 fail.
- Native byte order. The model fixes little-endian.
- The internals of `mserialize/visit.hpp`, `tag.hpp` and `ToStringVisitor.cpp` are not part of this model. Only the observable events, output and errors are modelled.
- Visitors that take over a sequence, tuple or structure (a `*Begin` callback answering true) are modelled only in `BinlogToString.ToStringVisitor`. The engine model assumes every `*Begin` answers false, as all visitors in visit.cpp do.
- The engine model requires the top-level tag to be exactly one complete tag. Trailing text is rejected. What the real engine does with trailing text is not shown.
- Codec.Deserialize: takes a fuel bound on nesting depth. The round-trip is proved for every fuel at least the value's depth. A value deeper than the fuel is not decoded.
- Engine.VisitSequence: its contract bounds only the bytes consumed. The full event list it reports is stated by VisitCorrect.VisitOfSerialized for well-typed input.
- Engine.VisitTuple, Engine.VisitVariant, Engine.VisitStruct, Engine.VisitEnum: same as Engine.VisitSequence.
- Some visit.cpp test cases are covered only by the generic theorems VisitCorrect.VisitOfSerialized and Rendering's text lemmas, with no method of their own: vector_of_vector_of_int (209-216), vector_of_char (218-223), tuple_of_int_bool_char_vector_of_int (232-237), tuple_of_int8_uint8 (239-245), vector_of_tuple_of_int_bool (247-253), enum_int64 and enum_uint64 (277-344), tuple_of_enum (346-358) and regular_struct (367-372).
- VisitCorrect.VisitOfSerialized: template arguments are covered only when spelled without grammar characters (`Pair<A,B>`, `Empty<A,B,C>`). A template name whose arguments are themselves written as tags, holding `[`, `(`, `{` or a quote, is outside the theorem, because the spelling of template arguments in tags comes from `mserialize/tag.hpp`, which is not part of this model.
- The StoreT failure on an unexpected callback (test/unit/mserialize/visit.cpp:35-39) aborts the test. The model records it as a flag and continues.
