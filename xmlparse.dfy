/** The text parser parse_xml_node (bxml.c:113-275): one pass over the
    characters of a C string, driven by an eight-state machine whose registers
    are the state, the start `v` of the span being collected and the cursor
    `cur`.

    `Step` is one turn of the C `for` loop as a function of the registers and
    the arena; `Run` iterates it to the terminating NUL.  The method
    `ParseXmlNode` performs the same loop on a `Doc` in place and is proved to
    end in the state `Run` describes.  The C dereferences `cur` without a test
    in four places and can read past the terminator in one; those inputs are
    given the outcome `Fault` instead of being excluded. */
module TextParser {
  import opened Base
  import opened Store

  datatype State = OutsideTag | TagName | TagEnd | Text | AttributeName | AttributeValue | Header | Comment

  /** The registers of the loop together with the arena it grows. */
  datatype Cfg = Cfg(h: Heap, st: State, v: nat, cur: Ref)

  /** A turn (or a run) either continues at position `p` or dereferences NULL /
      reads past the string's terminator. */
  datatype Outcome = Go(c: Cfg, p: nat) | Fault

  /** The registers before the first character: `cur` is NULL. */
  function Init(h: Heap): Cfg {
    Cfg(h, OutsideTag, 0, Null)
  }

  predicate IsSpace(b: Byte) {
    b == SPACE || b == CR || b == LF || b == TAB
  }

  /** `*(p+1)`: the character after p, the terminator when p is the last one. */
  function Peek(text: Bytes, i: nat): Byte
    requires i <= |text|
  {
    if i < |text| then text[i] else NUL
  }

  /** The end-tag test: `strncmp(v+1, name, MIN(name_len, span))` is 0.  Only
      the first MIN(name_len, span length) characters are compared, so an end
      tag matches any name it is a prefix of, and conversely; a node without
      a name matches every end tag. */
  predicate EndTagMatches(name: Option<Bytes>, span: Bytes) {
    var nm := if name.Some? then name.value else [];
    var k := if |nm| < |span| then |nm| else |span|;
    nm[..k] == span[..k]
  }

  /** What stays true between turns of the loop. */
  ghost predicate Good(text: Bytes, p: nat, c: Cfg) {
    && Ranked(c.h)
    && InRange(c.cur, |c.h.nodes|)
    && p <= |text|
    && c.v <= p
    && (c.st != OutsideTag ==> c.v >= 1)
    && (c.st == TagEnd ==> c.v < |text| && text[c.v] == SLASH)
  }

  /** One turn of the loop at position p (the C's `switch (state)`). */
  ghost function Step(text: Bytes, p: nat, c: Cfg): (r: Outcome)
    requires p < |text| && Good(text, p, c)
    ensures r.Go? ==> p < r.p <= |text| && Good(text, r.p, r.c)
  {
    var b := text[p];
    var n := |c.h.nodes|;
    match c.st
    case OutsideTag =>
      if b == LT then
        var nx := Peek(text, p + 1);
        if nx == SLASH then
          if c.cur.Null? then Fault
          else
            assert NodeOk(c.h, c.cur.i);
            Go(c.(st := TagEnd, v := p + 1, cur := c.h.nodes[c.cur.i].parent), p + 1)
        else if nx == QMARK then Go(c.(st := Header, v := p + 1), p + 1)
        else if nx == BANG then Go(c.(st := Comment, v := p + 1), p + 1)
        else Go(Cfg(AddNext(c.h, c.cur), TagName, p + 1, At(n)), p + 1)
      else
        // white space, or a stray character that is only reported
        Go(c, p + 1)
    case Header =>
      Go(if b == GT then c.(st := OutsideTag) else c, p + 1)
    case Comment =>
      Go(if b == GT then c.(st := OutsideTag) else c, p + 1)
    case TagName =>
      if b == GT || IsSpace(b) || b == SLASH then
        var st' := if b == GT then Text else AttributeName;
        if p - c.v > 0 then
          if c.cur.Null? then Fault
          else Go(Cfg(PutName(c.h, c.cur.i, text[c.v..p]), st', p + 1, c.cur), p + 1)
        else Go(c.(st := st', v := p + 1), p + 1)
      else Go(c, p + 1)
    case Text =>
      if b == LT then
        if Peek(text, p + 1) == SLASH then
          if p - c.v > 0 then
            if c.cur.Null? then Fault
            else Go(Cfg(PutValue(c.h, c.cur.i, text[c.v..p]), TagEnd, p + 1, c.cur), p + 1)
          else Go(c.(st := TagEnd, v := p + 1), p + 1)
        else Go(Cfg(AddUnder(c.h, c.cur, ChildLink), TagName, p + 1, At(n)), p + 1)
      else Go(c, p + 1)
    case TagEnd =>
      if b == GT then
        if c.cur.Null? then Fault
        else if EndTagMatches(c.h.nodes[c.cur.i].name, text[c.v + 1..p]) then Go(c.(st := OutsideTag), p + 1)
        else Go(c, p + 1)   // a mismatched end tag is reported and the state kept
      else Go(c, p + 1)
    case AttributeName =>
      if IsSpace(b) || b == EQUALS then
        var st' := if b == EQUALS then AttributeValue else AttributeName;
        if p - c.v > 1 then
          var h1 := AddUnder(c.h, c.cur, AttrLink);
          Go(Cfg(PutName(h1, n, text[c.v..p]), st', p + 1, At(n)), p + 1)
        else Go(c.(st := st', v := p + 1), p + 1)
      else if b == GT then Go(c.(st := Text, v := p + 1), p + 1)
      else if b == SLASH then
        // `*(++p)` moves past the next character whatever it is
        if p + 1 == |text| then Fault
        else if text[p + 1] == GT then Go(c.(st := OutsideTag), p + 2)
        else Go(c, p + 2)
      else Go(c, p + 1)
    case AttributeValue =>
      if b == QUOTE then
        if text[c.v - 1] == QUOTE then
          if c.cur.Null? then Fault
          else
            assert NodeOk(c.h, c.cur.i);
            var parent := c.h.nodes[c.cur.i].parent;
            var h1 := if p - c.v > 0 then PutValue(c.h, c.cur.i, text[c.v..p]) else c.h;
            Go(Cfg(h1, AttributeName, p + 1, parent), p + 1)
        else Go(c.(v := p + 1), p + 1)
      else Go(c, p + 1)
  }

  /** The loop from position p to the end of the string. */
  ghost function Run(text: Bytes, p: nat, c: Cfg): (r: Outcome)
    requires Good(text, p, c)
    ensures r.Go? ==> r.p == |text| && Good(text, |text|, r.c)
    decreases |text| - p
  {
    if p == |text| then Go(c, p)
    else
      match Step(text, p, c)
      case Fault => Fault
      case Go(c', p') => Run(text, p', c')
  }

  /** The arena a whole parse leaves behind, starting from an empty document. */
  ghost function Parse(text: Bytes): Outcome
  {
    Run(text, 0, Init(Heap([], [], [])))
  }

  // ---------------------------------------------------------------------
  // Phrase-level behaviour: what a tag, a text or an attribute does.

  /** The characters a state does not react to. */
  predicate Inert(st: State, b: Byte) {
    match st
    case OutsideTag => b != LT
    case Header => b != GT
    case Comment => b != GT
    case TagEnd => b != GT
    case TagName => !(b == GT || IsSpace(b) || b == SLASH)
    case Text => b != LT
    case AttributeName => !(IsSpace(b) || b == EQUALS || b == GT || b == SLASH)
    case AttributeValue => b != QUOTE
  }

  /** A stretch of characters the current state ignores changes nothing but
      the position. */
  lemma {:induction false} SkipInert(text: Bytes, p: nat, q: nat, c: Cfg)
    requires Good(text, p, c) && p <= q <= |text|
    requires forall i :: p <= i < q ==> Inert(c.st, text[i])
    ensures Good(text, q, c)
    ensures Run(text, p, c) == Run(text, q, c)
    decreases q - p
  {
    if p < q {
      assert Step(text, p, c) == Go(c, p + 1);
      SkipInert(text, p + 1, q, c);
    }
  }

  /** `<?...>` and `<!...>` outside a tag are skipped up to the first `>`,
      whatever they contain. */
  lemma SkipDirective(text: Bytes, p: nat, k: nat, c: Cfg)
    requires Good(text, p, c) && c.st == OutsideTag
    requires p + 1 < k < |text| && text[p] == LT && (text[p + 1] == QMARK || text[p + 1] == BANG)
    requires text[k] == GT && forall i :: p + 1 <= i < k ==> text[i] != GT
    ensures Good(text, k + 1, c.(v := p + 1))
    ensures Run(text, p, c) == Run(text, k + 1, c.(v := p + 1))
  {
    var c1 := c.(st := if text[p + 1] == QMARK then Header else Comment, v := p + 1);
    assert Step(text, p, c) == Go(c1, p + 1);
    SkipInert(text, p + 1, k, c1);
    assert Step(text, k, c1) == Go(c.(v := p + 1), k + 1);
  }

  /** A characters that ends a tag name. */
  predicate EndsName(b: Byte) {
    b == GT || IsSpace(b) || b == SLASH
  }

  /** An opening `<` outside a tag creates a node after the cursor
      (create_nextnode) whose name is the span up to the first white space,
      `/` or `>` (none when the span is empty); `>` leads to the text, the
      others to the attributes. */
  lemma OpenTag(text: Bytes, p: nat, k: nat, c: Cfg)
    requires Good(text, p, c) && c.st == OutsideTag
    requires p < k < |text| && text[p] == LT
    requires text[p + 1] != SLASH && text[p + 1] != QMARK && text[p + 1] != BANG
    requires EndsName(text[k]) && forall i :: p + 1 <= i < k ==> !EndsName(text[i])
    ensures var n := |c.h.nodes|;
      var h1 := AddNext(c.h, c.cur);
      var h2 := if k > p + 1 then PutName(h1, n, text[p + 1..k]) else h1;
      var c' := Cfg(h2, if text[k] == GT then Text else AttributeName, k + 1, At(n));
      Good(text, k + 1, c') && Run(text, p, c) == Run(text, k + 1, c')
  {
    var n := |c.h.nodes|;
    var c1 := Cfg(AddNext(c.h, c.cur), TagName, p + 1, At(n));
    assert Step(text, p, c) == Go(c1, p + 1);
    SkipInert(text, p + 1, k, c1);
  }

  /** Text right after a start tag, up to `</`: it becomes the cursor's value
      only when it is not empty (and a NULL cursor is then dereferenced); the
      parser goes on to the end tag with the cursor unchanged. */
  lemma TextThenEndTag(text: Bytes, p: nat, k: nat, c: Cfg)
    requires Good(text, p, c) && c.st == Text && c.v == p
    requires p <= k && k + 1 < |text| && text[k] == LT && text[k + 1] == SLASH
    requires forall i :: p <= i < k ==> text[i] != LT
    ensures k > p && c.cur.Null? ==> Run(text, p, c) == Fault
    ensures k == p || c.cur.At? ==>
      var h' := if k > p then PutValue(c.h, c.cur.i, text[p..k]) else c.h;
      Good(text, k + 1, Cfg(h', TagEnd, k + 1, c.cur))
      && Run(text, p, c) == Run(text, k + 1, Cfg(h', TagEnd, k + 1, c.cur))
  {
    SkipInert(text, p, k, c);
  }

  /** A `<` in the text that does not start an end tag opens a child of the
      cursor, inserted at the head of its children (create_childnode). */
  lemma TextThenChild(text: Bytes, p: nat, k: nat, c: Cfg)
    requires Good(text, p, c) && c.st == Text
    requires p <= k < |text| && text[k] == LT && Peek(text, k + 1) != SLASH
    requires forall i :: p <= i < k ==> text[i] != LT
    ensures var c' := Cfg(AddUnder(c.h, c.cur, ChildLink), TagName, k + 1, At(|c.h.nodes|));
      Good(text, k + 1, c') && Run(text, p, c) == Run(text, k + 1, c')
  {
    SkipInert(text, p, k, c);
  }

  /** `</...>` outside a tag moves the cursor to its parent; the state returns
      to OutsideTag only if the end tag passes the prefix test against the
      parent's name, and stays in TagEnd otherwise.  A cursor whose parent is
      NULL is then dereferenced. */
  lemma CloseTag(text: Bytes, p: nat, k: nat, c: Cfg)
    requires Good(text, p, c) && c.st == OutsideTag && c.cur.At?
    requires p + 1 < k < |text| && text[p] == LT && text[p + 1] == SLASH
    requires text[k] == GT && forall i :: p + 1 <= i < k ==> text[i] != GT
    ensures var par := c.h.nodes[c.cur.i].parent;
      && (par.Null? ==> Run(text, p, c) == Fault)
      && (par.At? ==> par.i < |c.h.nodes|)
      && (par.At? && par.i < |c.h.nodes| ==>
            var c' := Cfg(c.h, if EndTagMatches(c.h.nodes[par.i].name, text[p + 2..k]) then OutsideTag else TagEnd, p + 1, par);
            Good(text, k + 1, c') && Run(text, p, c) == Run(text, k + 1, c'))
  {
    assert NodeOk(c.h, c.cur.i);
    var c1 := Cfg(c.h, TagEnd, p + 1, c.h.nodes[c.cur.i].parent);
    assert Step(text, p, c) == Go(c1, p + 1);
    SkipInert(text, p + 1, k, c1);
  }

  /** With no cursor (nothing opened yet, or the cursor left the top level),
      `</` dereferences NULL. */
  lemma CloseWithoutCursor(text: Bytes, p: nat, c: Cfg)
    requires Good(text, p, c) && c.st == OutsideTag && c.cur.Null?
    requires p + 1 < |text| && text[p] == LT && text[p + 1] == SLASH
    ensures Run(text, p, c) == Fault
  {
    assert Step(text, p, c) == Fault;
  }

  /** An input that starts with an end tag crashes the parser. */
  lemma LeadingEndTag(text: Bytes)
    requires |text| >= 2 && text[0] == LT && text[1] == SLASH
    ensures Parse(text) == Fault
  {
    CloseWithoutCursor(text, 0, Init(Heap([], [], [])));
  }

  /** `name="value"` with a name of two characters or more: an attribute node
      is created at the head of the cursor's attributes with that name, gets
      the value when it is not empty, and the cursor returns to the element. */
  lemma Attribute(text: Bytes, p: nat, q: nat, r: nat, c: Cfg)
    requires Good(text, p, c) && c.st == AttributeName && c.v == p
    requires p + 2 <= q && q + 2 <= r < |text|
    requires forall i :: p <= i < q ==> Inert(AttributeName, text[i])
    requires text[q] == EQUALS && text[q + 1] == QUOTE && text[r] == QUOTE
    requires forall i :: q + 2 <= i < r ==> text[i] != QUOTE
    ensures var n := |c.h.nodes|;
      var h1 := PutName(AddUnder(c.h, c.cur, AttrLink), n, text[p..q]);
      var h2 := if r > q + 2 then PutValue(h1, n, text[q + 2..r]) else h1;
      var c' := Cfg(h2, AttributeName, r + 1, c.cur);
      Good(text, r + 1, c') && Run(text, p, c) == Run(text, r + 1, c')
  {
    var n := |c.h.nodes|;
    SkipInert(text, p, q, c);
    var h1 := PutName(AddUnder(c.h, c.cur, AttrLink), n, text[p..q]);
    var c1 := Cfg(h1, AttributeValue, q + 1, At(n));
    assert Step(text, q, c) == Go(c1, q + 1);
    var c2 := c1.(v := q + 2);
    assert Step(text, q + 1, c1) == Go(c2, q + 2);
    SkipInert(text, q + 2, r, c2);
  }

  /** `b="value"` with a one-character name: no attribute node is made; the
      value is stored on the element itself and the cursor moves to the
      element's parent (a NULL cursor is dereferenced). */
  lemma OneCharAttribute(text: Bytes, p: nat, r: nat, c: Cfg)
    requires Good(text, p, c) && c.st == AttributeName && c.v == p
    requires p + 3 <= r < |text| && Inert(AttributeName, text[p])
    requires text[p + 1] == EQUALS && text[p + 2] == QUOTE && text[r] == QUOTE
    requires forall i :: p + 3 <= i < r ==> text[i] != QUOTE
    ensures c.cur.Null? ==> Run(text, p, c) == Fault
    ensures c.cur.At? ==>
      var h' := if r > p + 3 then PutValue(c.h, c.cur.i, text[p + 3..r]) else c.h;
      var c' := Cfg(h', AttributeName, r + 1, c.h.nodes[c.cur.i].parent);
      Good(text, r + 1, c') && Run(text, p, c) == Run(text, r + 1, c')
  {
    var c1 := c.(st := AttributeValue, v := p + 2);
    assert Step(text, p, c) == Go(c, p + 1);
    assert Step(text, p + 1, c) == Go(c1, p + 2);
    var c2 := c1.(v := p + 3);
    assert Step(text, p + 2, c1) == Go(c2, p + 3);
    SkipInert(text, p + 3, r, c2);
    assert Run(text, p, c) == Run(text, r, c2) by {
      assert Run(text, p, c) == Run(text, p + 1, c);
      assert Run(text, p + 1, c) == Run(text, p + 2, c1);
      assert Run(text, p + 2, c1) == Run(text, p + 3, c2);
    }
    assert text[c2.v - 1] == QUOTE;
    if c.cur.Null? {
      assert Step(text, r, c2) == Fault;
    } else {
      assert NodeOk(c.h, c.cur.i);
      var h' := if r > p + 3 then PutValue(c.h, c.cur.i, text[p + 3..r]) else c.h;
      assert Step(text, r, c2) == Go(Cfg(h', AttributeName, r + 1, c.h.nodes[c.cur.i].parent), r + 1);
    }
  }

  /** A `/` inside a tag skips the next character; `/>` closes the tag. */
  lemma SelfClose(text: Bytes, p: nat, c: Cfg)
    requires Good(text, p, c) && c.st == AttributeName
    requires p + 1 < |text| && text[p] == SLASH && text[p + 1] == GT
    ensures Good(text, p + 2, c.(st := OutsideTag))
    ensures Run(text, p, c) == Run(text, p + 2, c.(st := OutsideTag))
  {
    assert Step(text, p, c) == Go(c.(st := OutsideTag), p + 2);
  }

  /** A `/` as the last character inside a tag makes the loop step over the
      terminator and read past the string. */
  lemma SlashAtEnd(text: Bytes, c: Cfg)
    requires |text| >= 1 && Good(text, |text| - 1, c) && c.st == AttributeName
    requires text[|text| - 1] == SLASH
    ensures Run(text, |text| - 1, c) == Fault
  {
    assert Step(text, |text| - 1, c) == Fault;
  }

  /** The end-tag test in both directions: it passes exactly when the end tag
      and the name agree on their common length, i.e. one is a prefix of the
      other. */
  lemma EndTagIsPrefixTest(name: Bytes, span: Bytes)
    ensures EndTagMatches(Some(name), span) <==> (name <= span || span <= name)
  {
    if |name| < |span| {
      assert name <= span <==> name == span[..|name|];
      assert span <= name <==> false;
    } else {
      assert span <= name <==> span == name[..|span|];
    }
  }

  // ---------------------------------------------------------------------
  // What every parse leaves behind.

  predicate NonEmpty(o: Option<Bytes>) {
    o.Some? ==> |o.value| > 0 && NoNul(o.value)
  }

  /** Every stored name and value is a non-empty C string. */
  ghost predicate Clean(h: Heap) {
    forall i :: 0 <= i < |h.nodes| ==> NonEmpty(h.nodes[i].name) && NonEmpty(h.nodes[i].value)
  }

  lemma StepClean(text: Bytes, p: nat, c: Cfg)
    requires NoNul(text) && p < |text| && Good(text, p, c) && Clean(c.h)
    ensures Step(text, p, c).Go? ==> Clean(Step(text, p, c).c.h)
  {
    var r := Step(text, p, c);
    if r.Go? {
      var h := c.h;
      var h' := r.c.h;
      forall i | 0 <= i < |h'.nodes|
        ensures NonEmpty(h'.nodes[i].name) && NonEmpty(h'.nodes[i].value)
      {
        if i < |h.nodes| {
          assert NonEmpty(h.nodes[i].name) && NonEmpty(h.nodes[i].value);
        }
      }
    }
  }

  lemma {:induction false} RunClean(text: Bytes, p: nat, c: Cfg)
    requires NoNul(text) && Good(text, p, c) && Clean(c.h)
    ensures Run(text, p, c).Go? ==> Clean(Run(text, p, c).c.h)
    decreases |text| - p
  {
    if p < |text| {
      StepClean(text, p, c);
      var r := Step(text, p, c);
      if r.Go? {
        RunClean(text, r.p, r.c);
      }
    }
  }

  /** Text between `>` and `</` becomes a value only when it is not empty, and
      only non-empty spans become names: after a parse of a C string, every
      name and value present is a non-empty string without NUL. */
  lemma ParseClean(text: Bytes)
    requires NoNul(text)
    ensures Parse(text).Go? ==> Clean(Parse(text).c.h)
  {
    RunClean(text, 0, Init(Heap([], [], [])));
  }

  // ---------------------------------------------------------------------
  // The loop itself, on a document.

  /** One turn of the loop, performing the splices on `d`. */
  method StepDoc(d: Doc, text: Bytes, p: nat, st: State, v: nat, cur: Ref)
    returns (ok: bool, p': nat, st': State, v': nat, cur': Ref)
    requires d.Valid() && p < |text| && Good(text, p, Cfg(d.H(), st, v, cur))
    modifies d
    ensures d.Valid()
    ensures var r := Step(text, p, Cfg(old(d.H()), st, v, cur));
      (ok <==> r.Go?) && (ok ==> r == Go(Cfg(d.H(), st', v', cur'), p'))
    ensures d.cur == old(d.cur) && d.version == old(d.version) && d.flag == old(d.flag)
  {
    var b := text[p];
    ok, p', st', v', cur' := true, p + 1, st, v, cur;
    match st
    case OutsideTag =>
      ok, p', st', v', cur' := StepOutside(d, text, p, st, v, cur);
    case Header =>
      if b == GT {
        st' := OutsideTag;
      }
    case Comment =>
      if b == GT {
        st' := OutsideTag;
      }
    case TagName =>
      if b == GT || IsSpace(b) || b == SLASH {
        if p - v > 0 {
          if cur.Null? {
            ok := false;
            return;
          }
          d.SetName(cur.i, text[v..p]);
        }
        v' := p + 1;
        st' := if b == GT then Text else AttributeName;
      }
    case Text =>
      ok, p', st', v', cur' := StepText(d, text, p, st, v, cur);
    case TagEnd =>
      if b == GT {
        if cur.Null? {
          ok := false;
          return;
        }
        if EndTagMatches(d.nodes[cur.i].name, text[v + 1..p]) {
          st' := OutsideTag;
        }
      }
    case AttributeName =>
      ok, p', st', v', cur' := StepAttrName(d, text, p, st, v, cur);
    case AttributeValue =>
      ok, p', st', v', cur' := StepAttrValue(d, text, p, st, v, cur);
  }

  /** One turn of the loop outside a tag. */
  method StepOutside(d: Doc, text: Bytes, p: nat, st: State, v: nat, cur: Ref)
    returns (ok: bool, p': nat, st': State, v': nat, cur': Ref)
    requires d.Valid() && p < |text| && Good(text, p, Cfg(d.H(), st, v, cur))
    requires st == OutsideTag
    modifies d
    ensures d.Valid()
    ensures var r := Step(text, p, Cfg(old(d.H()), st, v, cur));
      (ok <==> r.Go?) && (ok ==> r == Go(Cfg(d.H(), st', v', cur'), p'))
    ensures d.cur == old(d.cur) && d.version == old(d.version) && d.flag == old(d.flag)
  {
    var b := text[p];
    ok, p', st', v', cur' := true, p + 1, st, v, cur;
    if b == LT {
      var nx := if p + 1 < |text| then text[p + 1] else NUL;
      if nx == SLASH {
        if cur.Null? {
          ok := false;
          return;
        }
        assert NodeOk(d.H(), cur.i);
        cur' := d.nodes[cur.i].parent;
        st' := TagEnd;
      } else if nx == QMARK {
        st' := Header;
      } else if nx == BANG {
        st' := Comment;
      } else {
        var n := d.CreateNext(cur);
        cur' := At(n);
        st' := TagName;
      }
      v' := p + 1;
    }
  }

  /** One turn of the loop in the text of an element. */
  method StepText(d: Doc, text: Bytes, p: nat, st: State, v: nat, cur: Ref)
    returns (ok: bool, p': nat, st': State, v': nat, cur': Ref)
    requires d.Valid() && p < |text| && Good(text, p, Cfg(d.H(), st, v, cur))
    requires st == Text
    modifies d
    ensures d.Valid()
    ensures var r := Step(text, p, Cfg(old(d.H()), st, v, cur));
      (ok <==> r.Go?) && (ok ==> r == Go(Cfg(d.H(), st', v', cur'), p'))
    ensures d.cur == old(d.cur) && d.version == old(d.version) && d.flag == old(d.flag)
  {
    var b := text[p];
    ok, p', st', v', cur' := true, p + 1, st, v, cur;
    if b == LT {
      var nx := if p + 1 < |text| then text[p + 1] else NUL;
      if nx == SLASH {
        if p - v > 0 {
          if cur.Null? {
            ok := false;
            return;
          }
          d.SetValue(cur.i, text[v..p]);
        }
        st' := TagEnd;
      } else {
        var n := d.CreateChild(cur);
        cur' := At(n);
        st' := TagName;
      }
      v' := p + 1;
    }
  }

  /** One turn of the loop in an attribute name. */
  method StepAttrName(d: Doc, text: Bytes, p: nat, st: State, v: nat, cur: Ref)
    returns (ok: bool, p': nat, st': State, v': nat, cur': Ref)
    requires d.Valid() && p < |text| && Good(text, p, Cfg(d.H(), st, v, cur))
    requires st == AttributeName
    modifies d
    ensures d.Valid()
    ensures var r := Step(text, p, Cfg(old(d.H()), st, v, cur));
      (ok <==> r.Go?) && (ok ==> r == Go(Cfg(d.H(), st', v', cur'), p'))
    ensures d.cur == old(d.cur) && d.version == old(d.version) && d.flag == old(d.flag)
  {
    var b := text[p];
    ok, p', st', v', cur' := true, p + 1, st, v, cur;
    if IsSpace(b) || b == EQUALS {
      if p - v > 1 {
        var n := d.CreateAttr(cur);
        d.SetName(n, text[v..p]);
        cur' := At(n);
      }
      v' := p + 1;
      if b == EQUALS {
        st' := AttributeValue;
      }
    } else if b == GT {
      st' := Text;
      v' := p + 1;
    } else if b == SLASH {
      p' := p + 2;
      if p + 1 == |text| {
        ok := false;
        return;
      }
      if text[p + 1] == GT {
        st' := OutsideTag;
      }
    }
  }

  /** One turn of the loop in an attribute value. */
  method StepAttrValue(d: Doc, text: Bytes, p: nat, st: State, v: nat, cur: Ref)
    returns (ok: bool, p': nat, st': State, v': nat, cur': Ref)
    requires d.Valid() && p < |text| && Good(text, p, Cfg(d.H(), st, v, cur))
    requires st == AttributeValue
    modifies d
    ensures d.Valid()
    ensures var r := Step(text, p, Cfg(old(d.H()), st, v, cur));
      (ok <==> r.Go?) && (ok ==> r == Go(Cfg(d.H(), st', v', cur'), p'))
    ensures d.cur == old(d.cur) && d.version == old(d.version) && d.flag == old(d.flag)
  {
    var b := text[p];
    ok, p', st', v', cur' := true, p + 1, st, v, cur;
    if b == QUOTE {
      if text[v - 1] == QUOTE {
        if cur.Null? {
          ok := false;
          return;
        }
        if p - v > 0 {
          d.SetValue(cur.i, text[v..p]);
        }
        st' := AttributeName;
        assert NodeOk(d.H(), cur.i);
        cur' := d.nodes[cur.i].parent;
      }
      v' := p + 1;
    }
  }

  /** parse_xml_node: the whole loop, up to the terminator.  It ends with the
      arena `Run` describes, or reports the crash `Run` predicts. */
  method ParseXmlNode(d: Doc, text: Bytes) returns (ok: bool)
    requires d.Valid()
    modifies d
    ensures d.Valid()
    ensures var r := Run(text, 0, Init(old(d.H())));
      (ok <==> r.Go?) && (ok ==> d.H() == r.c.h)
    ensures d.cur == old(d.cur) && d.version == old(d.version) && d.flag == old(d.flag)
  {
    var p, st, v, cur := 0, OutsideTag, 0, Null;
    ghost var goal := Run(text, 0, Init(d.H()));
    while p < |text|
      invariant d.Valid() && Good(text, p, Cfg(d.H(), st, v, cur))
      invariant Run(text, p, Cfg(d.H(), st, v, cur)) == goal
      invariant d.cur == old(d.cur) && d.version == old(d.version) && d.flag == old(d.flag)
      decreases |text| - p
    {
      ok, p, st, v, cur := StepDoc(d, text, p, st, v, cur);
      if !ok {
        return;
      }
    }
    ok := true;
  }
}
