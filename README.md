# BXML document engine

A Dafny model of the BXML document engine in `sgos2/apps/msg/bxml.c`. BXML is a small XML-like document store. It holds a linked tree of named nodes. Each node has an optional byte-string value, a chain of attribute nodes and a chain of child nodes. A document can be loaded from either of two forms:

- a text form: a very loose subset of XML;
- a binary form: a header, then length-prefixed records.

It can be written back to either form. A slash-separated path language moves a cursor through the tree, reads and writes values, and creates missing nodes on demand.

The model has one module per part of the engine:

- `Base`: bytes, C strings (the bytes before the first NUL), little-endian integers, zeroed buffers.
- `Store`: the node store. `Store.Doc` is a class whose fields are the node arena (`nodes`, a sequence of records with `parent`, `child`, `attr`, `next` and `pre` links), `root`, `cur`, `version` and `flag`. Its methods are the C splice functions (`create_node`, `create_childnode`, `create_attrnode`, `create_nextnode`) and the name and value stores. Each method is proved equal to a pure splice function on `Heap` values. The arena carries two ghost rank sequences, so that chains and subtrees are well-founded. `TreeAt`, `Forest` and `Chain` read trees and chains out of the arena, and the splice lemmas state what each splice does to them.
- `TextParser`: `parse_xml_node`. It is a pure state machine (`Step`, `Run`, `Parse`) over the eight parser states, and `ParseXmlNode` is an imperative loop proved to follow `Run`. Lemmas state what each construct of the text form does. Where the C code dereferences NULL or reads past the terminator, the model gives the outcome `Fault`.
- `BinCodec`: the binary record format as pure functions: `Encode` and `Size` on trees, and the decoder `DecodeRecord`/`DecodeList` on bytes. It proves the round trip: decoding an encoding gives the tree back, in canonical form.
- `BinDecode`: `parse_bxml_node`, an imperative method proved to graft the decoded tree into the arena. Head insertion makes every rebuilt chain come out reversed (`Mirror`).
- `BinEncode`: `calc_node_size`, `bxml_buffer_size` and `build_bxml_node`/`bxml_build`, written against an `array` buffer. The methods are proved to write exactly the encoding of the tree when the buffer is large enough, and to fail with `-BXML_BUFF_TOO_SMALL` otherwise.
- `TextBuilder`: `build_xml_node`/`bxml_buildxml`. The output is a list of chunks, each with the text `sprintf`/`strcat` appends and the cost the C code subtracts from its remaining length. The methods are proved to produce exactly the prefix of the rendering that the length checks let through.
- `PathResolver`: `get_attrnode`, `get_childnode` (special segments `.`, `..` and `...`, plain search and conditional search) and `parse_path`. They are pure functions on the arena, plus methods on `Store.Doc` proved equal to them.
- `PathFacts`: properties of the resolver: searches return the first match; resolving a segment again in create mode finds what the first call created and creates nothing.
- `Api`: `bxml_parse`, `bxml_build` round trip, `bxml_redirect`, `bxml_read`, `bxml_write`, `bxml_readname`, `bxml_readstr`, `bxml_writestr`, `bxml_movenext` and `bxml_mknode`.

`create_nextnode` (`sgos2/apps/msg/bxml.c:95-110`) points the old successor's `node_pre` at the new node. It never sets the new node's `node_next`. So the new node ends its chain, and the old successor and everything after it are no longer reachable along `node_next`. The comment at `sgos2/apps/msg/bxml.c:104` ("there is already a next node, so insert") announces an insertion that the code does not complete. The model follows the code: `Store.AddNextCutsChain` and `Api.MkNodeChain` state the cut.

`bxml.h` is not part of this model. The constants it defines are given names in `BinCodec`, with these values:

- `Magic` is `0x4C4D5842`.
- The header is 8 bytes: the magic as 32 bits, then version and flag as 16 bits each, all little-endian.
- `BuffTooSmall` is `1`.

The record layout is the one `parse_bxml_node` reads:

- `name_len`: 1 byte;
- the name;
- `attr_count`: 1 byte;
- `child_count`: 2 bytes;
- `value_len`: 4 bytes;
- the value;
- the attribute records, then the child records.

## Model

| member | source | states |
|---|---|---|
| Base.IndexOf | sgos2/apps/msg/bxml.c:679-688 | the position of the first occurrence of a byte (what `strchr` finds), or the length when there is none |
| Base.CStr | sgos2/apps/msg/bxml.c:777-789 | the C string of a buffer: the bytes before the first NUL, none of which is NUL |
| Base.Clear | sgos2/apps/msg/bxml.c:408 | after `memset`, every byte of the buffer is zero |
| Base.UnLEOfLE | sgos2/apps/msg/bxml.c:294-315 | reading back a little-endian field of width w gives the number written, for every number below 256^w |
| Store.Chain | sgos2/apps/msg/bxml.c:534-538 | the `node_next` chain from a node: empty exactly for NULL, starts at the node, every entry inside the arena |
| Store.ForestIsChain | sgos2/apps/msg/bxml.c:575-579 | the trees read from a chain are the subtrees of the chain's nodes, in chain order |
| Store.NewNode | sgos2/apps/msg/bxml.c:43-55 | `create_node` appends one blank record and keeps the arena well-formed |
| Store.AddUnder | sgos2/apps/msg/bxml.c:58-92 | one new node whose parent is the given node; every other name and value unchanged |
| Store.AddUnderHead | sgos2/apps/msg/bxml.c:58-92 | the new node heads the parent's child or attribute chain, with no name or value and the old head as its `node_next`; the old head's `node_pre` points back at it; the chain is the new node followed by the old chain; every other node keeps its links |
| Store.AddNext | sgos2/apps/msg/bxml.c:95-110 | one new node whose parent is the cursor's parent (none without a cursor); names and values unchanged |
| Store.AddNextCutsChain | sgos2/apps/msg/bxml.c:95-110 | after `create_nextnode` on the k-th node of any chain, that chain is its first k+1 nodes followed by the new node; the new node has no `node_next`, and the old successor's `node_pre` points at it |
| Store.PutName | sgos2/apps/msg/bxml.c:168-177 | only the named node's name changes; its value and links and every other node stay as they were |
| Store.PutValue | sgos2/apps/msg/bxml.c:738-750 | only the node's value (and with it `value_len`) changes; its name and links and every other node stay as they were |
| Store.Doc.constructor | sgos2/apps/msg/bxml.c:334-339 | a zeroed document: no nodes, no root, no cursor, version and flag 0 |
| Store.Doc.CreateNode | sgos2/apps/msg/bxml.c:43-55 | the arena becomes `NewNode` of the old one, and the new node becomes root when there was none |
| Store.Doc.CreateChild | sgos2/apps/msg/bxml.c:58-74 | the arena becomes `AddUnder(.., ChildLink)` of the old one; the cursor, version and flag are unchanged |
| Store.Doc.CreateAttr | sgos2/apps/msg/bxml.c:77-92 | the arena becomes `AddUnder(.., AttrLink)` of the old one; the cursor, version and flag are unchanged |
| Store.Doc.CreateNext | sgos2/apps/msg/bxml.c:95-110 | the arena becomes `AddNext` of the old one; the cursor, version and flag are unchanged |
| Store.Doc.SetName | sgos2/apps/msg/bxml.c:168-177 | the arena becomes `PutName` of the old one |
| Store.Doc.SetValue | sgos2/apps/msg/bxml.c:192-199 | the arena becomes `PutValue` of the old one |
| TextParser.Step | sgos2/apps/msg/bxml.c:130-273 | one turn of the parser loop either faults or moves the position forward, still inside the text, keeping the cursor inside a well-formed arena |
| TextParser.Run | sgos2/apps/msg/bxml.c:130-274 | a run that does not fault reaches the terminator, with the cursor inside a well-formed arena |
| TextParser.SkipInert | sgos2/apps/msg/bxml.c:149-163 | characters the current state ignores change nothing but the position |
| TextParser.SkipDirective | sgos2/apps/msg/bxml.c:138-163 | `<?...>` and `<!...>` are skipped up to the first `>` whatever they contain, leaving the arena unchanged |
| TextParser.OpenTag | sgos2/apps/msg/bxml.c:142-186 | a plain `<` outside a tag creates a node after the cursor, named by the span up to the first white space, `/` or `>` (no name when empty); `>` leads to Text, the others to AttributeName |
| TextParser.TextThenEndTag | sgos2/apps/msg/bxml.c:188-200 | text before `</` becomes the cursor's value only when non-empty, and faults when there is no cursor; the parser then goes to TagEnd |
| TextParser.TextThenChild | sgos2/apps/msg/bxml.c:201-206 | a `<` in text that does not start an end tag creates a child at the head of the cursor's children and moves the cursor to it |
| TextParser.CloseTag | sgos2/apps/msg/bxml.c:134-218 | `</...>` moves the cursor to its parent; it returns to OutsideTag only when the end tag passes the prefix test against the parent's name, and faults when the parent is NULL |
| TextParser.CloseWithoutCursor | sgos2/apps/msg/bxml.c:135-137 | `</` with no cursor dereferences NULL: the parse faults |
| TextParser.LeadingEndTag | sgos2/apps/msg/bxml.c:128-137 | an input that starts with `</` faults |
| TextParser.Attribute | sgos2/apps/msg/bxml.c:219-271 | `name="value"` with a name of two or more characters creates an attribute node at the head of the cursor's attributes with that name and (when non-empty) that value, and the cursor returns to the element |
| TextParser.OneCharAttribute | sgos2/apps/msg/bxml.c:222-270 | `b="value"` with a one-character name creates no node: the value is stored on the element and the cursor moves to the element's parent (a fault when there is no cursor) |
| TextParser.SelfClose | sgos2/apps/msg/bxml.c:244-247 | `/>` inside a tag goes back to OutsideTag with the cursor unchanged |
| TextParser.SlashAtEnd | sgos2/apps/msg/bxml.c:244-245 | a `/` as the last character inside a tag steps over the terminator: the parse faults |
| TextParser.EndTagIsPrefixTest | sgos2/apps/msg/bxml.c:211 | the end-tag test passes exactly when one of the name and the end tag is a prefix of the other |
| TextParser.StepClean | sgos2/apps/msg/bxml.c:168-264 | a turn of the loop over a C string stores only non-empty names and values without NUL |
| TextParser.RunClean | sgos2/apps/msg/bxml.c:130-274 | the same for a whole run of the loop |
| TextParser.ParseClean | sgos2/apps/msg/bxml.c:113-275 | after a successful parse of a C string, every name and value present is non-empty and NUL-free |
| TextParser.StepDoc | sgos2/apps/msg/bxml.c:130-273 | one turn performed in place on the document gives exactly the position, state and arena of `Step` |
| TextParser.StepOutside | sgos2/apps/msg/bxml.c:132-155 | the OutsideTag turn in place, equal to `Step` |
| TextParser.StepText | sgos2/apps/msg/bxml.c:188-208 | the Text turn in place, equal to `Step` |
| TextParser.StepAttrName | sgos2/apps/msg/bxml.c:219-252 | the AttributeName turn in place, equal to `Step` |
| TextParser.StepAttrValue | sgos2/apps/msg/bxml.c:253-272 | the AttributeValue turn in place, equal to `Step` |
| TextParser.ParseXmlNode | sgos2/apps/msg/bxml.c:113-275 | the parser loop in place: it succeeds exactly when `Run` does, and then leaves the arena `Run` computes; the document's cursor, version and flag are unchanged |
| BinCodec.Header | sgos2/apps/msg/bxml.c:488-494 | the file header is `HeaderSize` bytes (its fields are read back in `Api.BinaryRoundTrip`) |
| BinCodec.EncodeLength | sgos2/apps/msg/bxml.c:415-462 | `calc_node_size`'s count equals the number of bytes `build_bxml_node` writes for a node and everything below it |
| BinCodec.EncodeListLength | sgos2/apps/msg/bxml.c:420-423 | the same for a chain of records |
| BinCodec.ReadFields | sgos2/apps/msg/bxml.c:294-315 | reading a record's fixed fields consumes at least one byte and stays inside the input |
| BinCodec.DecodeRecord | sgos2/apps/msg/bxml.c:278-328 | a decoded record ends after where it starts and inside the input |
| BinCodec.DecodeList | sgos2/apps/msg/bxml.c:317-326 | decoding `count` records gives `count` trees and stays inside the input |
| BinCodec.ReadFixed | sgos2/apps/msg/bxml.c:294-315 | the fixed fields `build_bxml_node` writes read back as the same name, counts and value (an empty value reads as none) |
| BinCodec.DecodeEncode | sgos2/apps/msg/bxml.c:278-328 | decoding a record written by the encoder gives its tree back (canonical form) and stops right after the record |
| BinCodec.DecodeEncodeList | sgos2/apps/msg/bxml.c:317-326 | decoding a chain of written records gives the chain back and stops right after it |
| BinCodec.MirrorList | sgos2/apps/msg/bxml.c:58-92 | head insertion rebuilds a chain in reverse order, each tree mirrored |
| BinCodec.MirrorMirror | sgos2/apps/msg/bxml.c:58-92 | mirroring twice gives the tree back, so a second decode and rebuild restores the order |
| BinDecode.Started | sgos2/apps/msg/bxml.c:287-315 | starting a record adds exactly one node and keeps the arena well-formed |
| BinDecode.StartedFacts | sgos2/apps/msg/bxml.c:287-315 | the record's node holds its name and value, has the parent as parent and the parent's old head as `node_next`, and heads the parent's chain; other nodes keep their shape |
| BinDecode.Graft | sgos2/apps/msg/bxml.c:278-328 | decoding a record adds exactly one node per tree node |
| BinDecode.GraftFacts | sgos2/apps/msg/bxml.c:278-328 | the added nodes hold exactly the mirrored tree, at the head of the parent's chain with the old head after it; the nodes already there keep their shape |
| BinDecode.GraftList | sgos2/apps/msg/bxml.c:317-326 | decoding a list of records adds exactly the nodes of its trees |
| BinDecode.GraftListFacts | sgos2/apps/msg/bxml.c:317-326 | the chain built from an empty head is the mirrored list, and no other node changes shape |
| BinDecode.ParseBxmlNode | sgos2/apps/msg/bxml.c:278-328 | `parse_bxml_node` in place: it returns the position after the record, leaves the arena `Graft` computes and the cursor on the new node |
| BinDecode.ParseRecords | sgos2/apps/msg/bxml.c:317-326 | the attribute and child loops in place: the arena `GraftList` computes, the position after the records, the cursor back on the node |
| BinDecode.ParseChild | sgos2/apps/msg/bxml.c:318-325 | one nested call with the cursor restored afterwards |
| BinEncode.Put | sgos2/apps/msg/bxml.c:451-462 | `memcpy` writes exactly the given bytes at the offset and leaves the rest of the buffer unchanged |
| BinEncode.CalcNodeSize | sgos2/apps/msg/bxml.c:415-425 | the result is the encoded size of the node's tree |
| BinEncode.SizeChain | sgos2/apps/msg/bxml.c:420-423 | the result is the total encoded size of a chain |
| BinEncode.BufferSize | sgos2/apps/msg/bxml.c:427-430 | `bxml_buffer_size` is the header size plus the root's encoded size |
| BinEncode.CountChain | sgos2/apps/msg/bxml.c:445-448 | the chain's length, stopped one past the cap exactly as the counting loops stop |
| BinEncode.RecordLayout | sgos2/apps/msg/bxml.c:440-477 | a record is its fixed fields, then its attribute records, then its child records, and its size adds up accordingly |
| BinEncode.WriteHead | sgos2/apps/msg/bxml.c:439-462 | when the fixed fields fit, exactly they are written and the remaining length is returned; otherwise nothing is written |
| BinEncode.BuildKids | sgos2/apps/msg/bxml.c:464-477 | the attribute and child records are written in order and the remaining length returned, or `-BXML_BUFF_TOO_SMALL` when they do not fit |
| BinEncode.BuildChain | sgos2/apps/msg/bxml.c:464-477 | a chain's records are written in order, within the given room; `-BXML_BUFF_TOO_SMALL` exactly when they do not fit |
| BinEncode.ChainStep | sgos2/apps/msg/bxml.c:464-470 | one record of the loop extends the written prefix of the chain by exactly that record |
| BinEncode.BuildBxmlNode | sgos2/apps/msg/bxml.c:432-479 | returns the room left after the node's encoding when it fits and `-BXML_BUFF_TOO_SMALL` otherwise; it writes only inside the room, and the whole encoding when it fits |
| BinEncode.BuildRoot | sgos2/apps/msg/bxml.c:495-499 | the root record after the header: the buffer is header, encoding, zeros |
| BinEncode.BxmlBuild | sgos2/apps/msg/bxml.c:482-500 | a buffer shorter than the header is zeroed and fails; otherwise the result is header plus encoded size when it fits (so a buffer of exactly `bxml_buffer_size` bytes succeeds and one byte less fails) and the buffer then holds header, encoding, zeros |
| TextBuilder.EmitLeft | sgos2/apps/msg/bxml.c:354-402 | the remaining length after emitting is the starting length minus the total cost, whether or not the text fitted |
| TextBuilder.EmitPrefix | sgos2/apps/msg/bxml.c:354-402 | what is emitted is always a prefix of the full rendering |
| TextBuilder.EmitBound | sgos2/apps/msg/bxml.c:354-402 | when no chunk writes more than it is charged, the output is shorter than the starting length, and empty when that length is not positive |
| TextBuilder.EmitAll | sgos2/apps/msg/bxml.c:354-402 | when the total cost is below the length, the whole rendering is emitted |
| TextBuilder.AttrChunksHonest | sgos2/apps/msg/bxml.c:368-372 | no attribute chunk writes more than it is charged |
| TextBuilder.RenderHonest | sgos2/apps/msg/bxml.c:358-397 | no chunk of a node's rendering writes more than it is charged, and every chunk writes exactly its charge when the values hold no NUL |
| TextBuilder.RenderListHonest | sgos2/apps/msg/bxml.c:398-400 | the same for a chain of nodes |
| TextBuilder.ExactText | sgos2/apps/msg/bxml.c:354-402 | when every chunk writes exactly its charge, the text is as long as the total cost |
| TextBuilder.BareNode | sgos2/apps/msg/bxml.c:384-392 | a node with no attributes, children or value is written as `<name></name>` |
| TextBuilder.ShortTag | sgos2/apps/msg/bxml.c:393-397 | a node with attributes but no children or value ends with ` />` |
| TextBuilder.Cat | sgos2/apps/msg/bxml.c:363-396 | `strcat`/`sprintf` writes the bytes and a terminator at the end of the text, and nothing else |
| TextBuilder.EmitChunk | sgos2/apps/msg/bxml.c:359-397 | one guarded append: the text is written only when the length check lets it through, and the length is reduced by its charge |
| TextBuilder.BuildXmlNode | sgos2/apps/msg/bxml.c:354-402 | the buffer receives exactly what `Emit` lets through of the rendering of the node and its chain, and the remaining length is tracked |
| TextBuilder.BuildAttrs | sgos2/apps/msg/bxml.c:368-372 | the same for the attribute chain |
| TextBuilder.BuildBody | sgos2/apps/msg/bxml.c:373-397 | the same for the body (children, value or short tag) |
| TextBuilder.BuildKidsBody | sgos2/apps/msg/bxml.c:374-383 | the same for a body of children and the closing tag |
| TextBuilder.BuildValueBody | sgos2/apps/msg/bxml.c:384-397 | the same for a value body or a short tag |
| TextBuilder.BxmlBuildXml | sgos2/apps/msg/bxml.c:405-412 | returns the total cost of the document's rendering; the buffer holds the emitted prefix followed by zeros, is never filled completely, and holds the whole rendering when the cost is below its size |
| TextBuilder.Finished | sgos2/apps/msg/bxml.c:405-412 | the facts of `BxmlBuildXml` from the running state at the end of the walk |
| PathResolver.Find | sgos2/apps/msg/bxml.c:534-538 | the name search along a chain returns NULL or a node of the arena |
| PathResolver.FindWhere | sgos2/apps/msg/bxml.c:613-628 | the conditional search returns NULL or a node of the arena |
| PathResolver.AddNamed | sgos2/apps/msg/bxml.c:540-547 | a created, named node adds exactly one well-formed node and keeps every name present |
| PathResolver.AttrNode | sgos2/apps/msg/bxml.c:529-552 | `get_attrnode` returns a node of the grown arena; in create mode it never returns NULL; without create it changes nothing |
| PathResolver.ChildNode | sgos2/apps/msg/bxml.c:554-590 | the same for `get_childnode` without a condition, with `...`, `..` and `.` |
| PathResolver.AddCond | sgos2/apps/msg/bxml.c:639-646 | storing one condition keeps the arena well-formed and every name present |
| PathResolver.AddConds | sgos2/apps/msg/bxml.c:639-646 | the same for all conditions |
| PathResolver.ChildWhere | sgos2/apps/msg/bxml.c:591-650 | the same for `get_childnode` with a condition |
| PathResolver.NextSep | sgos2/apps/msg/bxml.c:596-598 | the first separator at or after a position (no separator before it), or the end when there is none |
| PathResolver.Fields | sgos2/apps/msg/bxml.c:596-611 | splitting at a separator gives at least one field |
| PathResolver.Clause | sgos2/apps/msg/bxml.c:600-607 | a clause gives at most one condition (none without `=`) |
| PathResolver.Conds | sgos2/apps/msg/bxml.c:596-611 | at most 16 conditions are parsed |
| PathResolver.SegStep | sgos2/apps/msg/bxml.c:676-698 | one path segment never shrinks the arena; create mode always finds a node; without create the arena is unchanged |
| PathResolver.Lookup | sgos2/apps/msg/bxml.c:679-698 | the same for a segment of 1 to 255 bytes |
| PathResolver.PlainStep | sgos2/apps/msg/bxml.c:696 | a segment without `?` or `:` is a plain child lookup |
| PathResolver.Walk | sgos2/apps/msg/bxml.c:672-704 | walking the segments from a node: without create the arena is unchanged; with create and a start node a node is always found |
| PathResolver.Resolve | sgos2/apps/msg/bxml.c:656-706 | `parse_path` from the root (leading `/`) or the cursor, over the path up to its first NUL: without create the arena is unchanged |
| PathResolver.ResolveCString | sgos2/apps/msg/bxml.c:672-703 | the loop stops at the path's first NUL: a path resolves as its C string does, and whatever follows a NUL never matters |
| PathResolver.Search | sgos2/apps/msg/bxml.c:534-538 | the search loop returns `Find` |
| PathResolver.MeetsAllConds | sgos2/apps/msg/bxml.c:616-625 | the condition loop answers whether the node meets every condition |
| PathResolver.SearchWhere | sgos2/apps/msg/bxml.c:613-628 | the conditional search loop returns `FindWhere` |
| PathResolver.MakeNamed | sgos2/apps/msg/bxml.c:540-547 | creating a named node in place leaves the arena `AddNamed` computes |
| PathResolver.GetAttrNode | sgos2/apps/msg/bxml.c:529-552 | `get_attrnode` in place: result and arena equal `AttrNode` |
| PathResolver.GetChildNode | sgos2/apps/msg/bxml.c:554-651 | `get_childnode` in place: result and arena equal `ChildNode` without a condition and `ChildWhere` with one |
| PathResolver.StoreConds | sgos2/apps/msg/bxml.c:639-646 | the condition-storing loop leaves the arena `AddConds` computes |
| PathResolver.StoreCond | sgos2/apps/msg/bxml.c:640-645 | storing one condition in place leaves the arena `AddCond` computes |
| PathResolver.ParseConds | sgos2/apps/msg/bxml.c:596-611 | the condition-splitting loop yields `Conds` |
| PathResolver.Scan | sgos2/apps/msg/bxml.c:672-673 | the scanning loop stops at `NextSep` |
| PathResolver.FieldsNext | sgos2/apps/msg/bxml.c:672-703 | the fields from a position are the span to the next separator followed by the fields after it |
| PathResolver.Segment | sgos2/apps/msg/bxml.c:676-698 | one segment in place: result and arena equal `SegStep` |
| PathResolver.WalkFrom | sgos2/apps/msg/bxml.c:671-704 | the segment loop in place: result and arena equal `Walk` |
| PathResolver.NextSegment | sgos2/apps/msg/bxml.c:673-703 | one turn of the segment loop in place |
| PathResolver.WalkNext | sgos2/apps/msg/bxml.c:672-704 | walking from a position is one segment step followed by walking the rest |
| PathResolver.ParsePath | sgos2/apps/msg/bxml.c:656-706 | `parse_path` in place, reading the path up to its first NUL: result and arena equal `Resolve` |
| PathFacts.FindIsFirst | sgos2/apps/msg/bxml.c:534-538 | the search returns the first node of the chain with the name, and NULL exactly when no node of the chain has it |
| PathFacts.FindWhereIsFirst | sgos2/apps/msg/bxml.c:613-628 | the conditional search returns the first node with the name that meets every condition, and NULL exactly when there is none |
| PathFacts.AddNamedFacts | sgos2/apps/msg/bxml.c:540-547 | a created node heads the parent's chain, has the name and no value, and has the old head after it; no value elsewhere changes |
| PathFacts.AttrNodeAgain | sgos2/apps/msg/bxml.c:529-552 | after `get_attrnode` in create mode, looking the name up again (with or without create) returns the same node and creates nothing |
| PathFacts.ChildNodeAgain | sgos2/apps/msg/bxml.c:554-590 | the same for `get_childnode` without a condition |
| PathFacts.AddCondMeets | sgos2/apps/msg/bxml.c:640-645 | storing a condition makes the node meet it |
| PathFacts.AddCondKeeps | sgos2/apps/msg/bxml.c:640-645 | storing a condition keeps every condition the node met that does not give the same attribute another value |
| PathFacts.AddCondsMeet | sgos2/apps/msg/bxml.c:638-646 | after storing a consistent set of conditions, the new node meets all of them |
| PathFacts.ChildWhereAgain | sgos2/apps/msg/bxml.c:591-650 | after a conditional lookup in create mode, looking up again returns the same node and creates nothing |
| PathFacts.SegAgain | sgos2/apps/msg/bxml.c:676-698 | resolving one path segment again in create mode from the same node returns the node of the first time and creates nothing |
| PathFacts.CondAgain | sgos2/apps/msg/bxml.c:679-686 | the same for a conditional segment `name?conditions` |
| PathFacts.ColonAgain | sgos2/apps/msg/bxml.c:688-694 | the same for an attribute segment `name:attr` |
| Api.BxmlParse | sgos2/apps/msg/bxml.c:331-351 | a binary image is decoded, with the header's version and flag, into the arena `Graft` computes; anything else is parsed as text, and succeeds exactly when `Parse` does; the cursor ends on the root |
| Api.BinaryRoundTrip | sgos2/apps/msg/bxml.c:340-345 | a buffer that `bxml_build` fills is recognised as binary, its version and flag read back, and its root record decodes to the document's tree with every chain reversed |
| Api.Redirect | sgos2/apps/msg/bxml.c:711-721 | returns 1 and moves the cursor exactly when the path, read up to its first NUL, resolves; otherwise returns 0 and leaves the cursor; the arena is what resolution leaves |
| Api.Moved | sgos2/apps/msg/bxml.c:793-805 | k moves along `node_next` stay inside the arena |
| Api.MoveNext | sgos2/apps/msg/bxml.c:793-805 | moves to the next node of the chain and returns 1 when there is one; returns 0 and stays at the chain's end or without a cursor; the arena is unchanged |
| Api.MovedAlongChain | sgos2/apps/msg/bxml.c:793-805 | k calls visit the chain in order and stop on its last node |
| Api.Target | sgos2/apps/msg/bxml.c:753-762 | the node a path names without creating anything is a node of the arena |
| Api.Read | sgos2/apps/msg/bxml.c:724-735 | copies min(value length, buffer size) bytes of the value of the node the path (up to its first NUL) names and returns that count, or -1 when the path names nothing or the node has no value; the document is unchanged |
| Api.ReadName | sgos2/apps/msg/bxml.c:753-762 | the name of the node the path (up to its first NUL) names, or none exactly when it names nothing |
| Api.ReadStr | sgos2/apps/msg/bxml.c:765-774 | the stored value of the node the path (up to its first NUL) names, or none |
| Api.Stored | sgos2/apps/msg/bxml.c:738-750 | resolving with creation and storing keeps the arena well-formed and every name present |
| Api.StoredFacts | sgos2/apps/msg/bxml.c:738-750 | after a write through a path with a start node, the node the path names holds exactly the new value with `value_len` its length and keeps its name; no other node changes beyond what resolution did |
| Api.Write | sgos2/apps/msg/bxml.c:738-750 | the arena becomes `Stored` with the given bytes, the path read up to its first NUL; the cursor, root, version and flag are unchanged |
| Api.WriteStr | sgos2/apps/msg/bxml.c:777-789 | as `Write`, with the string's bytes up to its terminator; the path, too, is read up to its first NUL |
| Api.MkNode | sgos2/apps/msg/bxml.c:808-827 | -1 and nothing changes without a cursor; otherwise 1, a node named by the string is created by `create_nextnode` and the cursor moves to it |
| Api.MkNodeChain | sgos2/apps/msg/bxml.c:808-827 | after `bxml_mknode`, every chain through the cursor ends at the cursor followed by the new named node, whose parent is the cursor's parent |

## Left out

- Diagnostics (`printf`), `seterr`/`bxml_lasterr`, and the out-of-memory branches of `safe_malloc` are not modelled: allocation never fails here.
- `free_node`/`bxml_free` are not modelled: the arena is dropped as a whole, and names and values are never released.
- `bxml.h` is not part of this model: the magic number, the header size and the error code are named stand-ins, and the header is assumed to be 32-bit magic, 16-bit version and 16-bit flag, little-endian.
- The C `int` and `size_t` arithmetic is unbounded here: length counters in the serializers and sizes are assumed to stay in range.
- Api.BxmlParse: an input shorter than 4 bytes is read as text, because the C magic test reads 4 bytes whatever the length. A binary input must decode completely (`DecodeRecord(..).Decoded?`) and a text input must contain a NUL, because the C decoder and parser read without bounds checks. `ok = false` stands for the crash of the C parser.
- BinDecode.ParseBxmlNode: requires the record to decode inside the input, because `parse_bxml_node` trusts the counts and lengths it reads.
- BinEncode.BxmlBuild: requires the tree to be encodable (names under 256 bytes, under 256 attributes and 65536 children per node, values under 2^32 bytes), because the C code silently truncates the counts it stores. A buffer of at least the header's size also requires a root, because `build_bxml_node` dereferences it.
- BinEncode.BuildBxmlNode: same encodability requirement as `BxmlBuild`.
- Api.BinaryRoundTrip: version and flag are below 2^16, matching the assumed 16-bit header fields.
- TextBuilder.BxmlBuildXml: requires every node to have a name and every attribute a value, because `sprintf` of a NULL string is undefined. It also requires the document to be non-empty, because `bxml_buildxml` dereferences the root.
- TextBuilder.BxmlBuildXml: overlapping `sprintf` into the buffer's own text is modelled as an append.
- PathResolver.GetChildNode: requires every node to be named (`AllNamed`), because `strcmp` on a NULL name is undefined. The text parser can leave a node nameless (`<>`), and the path operations are not modelled on such a document.
- PathResolver.ParsePath: same `AllNamed` requirement, and so do all the `Api` calls that resolve paths.
- PathFacts.ChildWhereAgain: requires the conditions to give no attribute two different values. With `a=1&a=2`, the created node ends with `a=2`, so the second lookup creates another node.
- PathFacts.SegAgain: same consistency requirement.
- Idempotence and read-back are proved one segment at a time (`SegAgain`, `StoredFacts`), not for whole multi-segment paths: a write can change which node a later conditional segment matches.
- Api.Write: the stored value gets no NUL terminator, exactly as `bxml_write` copies it. The C readers that later use `strcmp`/`strlen` on such a value can over-read. The model compares only the bytes before the first NUL (`CStr`).
- Api.ReadStr: returns the stored value as it is. A C caller sees it only up to its first NUL.
- The in-place rewriting of `tmp` and of the condition string by `parse_path`/`get_childnode` (writing NUL over `?`, `:`, `&` and `=`) is modelled as splitting the segment into slices.
