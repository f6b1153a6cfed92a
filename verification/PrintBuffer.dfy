/** The printer as it runs over a growing or preallocated buffer. Printers reserve, write and leave the
    offset wherever they like inside what they wrote; update_offset finds the end again by its NUL. */
module PrintBuffer {
  import opened Bytes
  import opened Numbers
  import opened StringCodec
  import opened Json
  import opened JsonDocument
  import opened NodeList

  const INT_MAX: nat := 0x7FFF_FFFF

  class Printer {
    var buffer: array<byte>
    var length: nat
    var offset: nat
    var depth: nat
    const noalloc: bool
    const format: bool
    /** The largest buffer this printer can ever have. */
    ghost const limit: nat

    constructor (storage: array<byte>, noalloc: bool, format: bool)
      requires storage.Length <= INT_MAX
      ensures buffer == storage && this.noalloc == noalloc && this.format == format && depth == 0
      ensures limit == (if noalloc then storage.Length else INT_MAX) && Ready([])
    {
      buffer, length, offset, depth := storage, storage.Length, 0, 0;
      this.noalloc, this.format := noalloc, format;
      limit := if noalloc then storage.Length else INT_MAX;
    }

    ghost predicate Valid()
      reads this`buffer, this`length, this`offset
    {
      && buffer.Length == length <= limit <= INT_MAX
      && (offset < length || length == offset == 0)
      && limit == if noalloc then length else INT_MAX
    }

    /** Everything printed so far is `text`, and the offset is at its end. */
    ghost predicate Ready(text: bytes)
      reads this`buffer, this`length, this`offset, buffer
    {
      Valid() && offset == |text| && buffer[..offset] == text
    }

    /** The buffer holds `text` and a NUL; the offset is somewhere inside, at `from` or later. */
    ghost predicate Wrote(text: bytes, from: nat)
      reads this`buffer, this`length, this`offset, buffer
    {
      Valid() && |text| < length && buffer[..|text|] == text && buffer[|text|] == NUL && from <= offset <= |text|
    }

    lemma WroteEarlier(text: bytes, from: nat, earlier: nat)
      requires Wrote(text, from) && earlier <= from
      ensures Wrote(text, earlier)
    {
    }

    /** Modification frame of every printer: its own buffer, or one it allocated. */
    twostate predicate Frame()
      reads this`buffer
    {
      && (buffer == old(buffer) || fresh(buffer)) && (noalloc ==> buffer == old(buffer))
    }

    /** ensure: room for `needed` bytes and one more at the offset, growing the buffer if allowed. */
    method Ensure(needed: nat) returns (ok: bool)
      requires Valid()
      modifies this`buffer, this`length
      ensures Valid() && Frame()
      ensures ok <==> offset + needed + 1 <= limit
      ensures ok ==>
                var total := offset + needed + 1;
                length == if total <= old(length) then old(length)
                          else if total <= 1073741823 then 2 * total else 2147483647
      ensures !ok ==> length == old(length)
      ensures old(buffer.Length) <= buffer.Length && buffer[..old(buffer.Length)] == old(buffer[..])
    {
      if length > 0 && offset >= length { return false; }
      if needed > INT_MAX { return false; }
      var total := needed + offset + 1;
      if total <= length { return true; }
      if noalloc { return false; }
      var newsize := total * 2;
      if total > INT_MAX / 2 {
        if total > INT_MAX { return false; }
        newsize := INT_MAX;
      }
      var newbuffer := new byte[newsize];
      forall k | 0 <= k < length { newbuffer[k] := buffer[k]; }
      buffer, length := newbuffer, newsize;
      ok := true;
    }

    /** memcpy, strcpy or a run of stores through the output pointer. */
    method Put(position: nat, text: bytes)
      requires position + |text| <= buffer.Length
      modifies buffer
      ensures buffer[..position + |text|] == old(buffer[..position]) + text
      ensures buffer[..position] == old(buffer[..position])
    {
      forall k | 0 <= k < |text| { buffer[position + k] := text[k]; }
      Pasted(buffer[..], old(buffer[..position]), text);
      assert buffer[..position] == old(buffer[..position]);
    }

    /** Reserve, write `text` and advance the offset over it; some callers also write a NUL behind it. */
    method Emit(ghost before: bytes, text: bytes, needed: nat, terminated: bool) returns (ok: bool)
      requires Ready(before) && |text| + 1 <= needed + (if terminated then 0 else 1)
      modifies this`buffer, this`length, this`offset, buffer
      ensures Frame() && (ok <==> |before| + needed + 1 <= limit)
      ensures ok ==> Ready(before + text)
    {
      ok := Ensure(needed);
      if !ok { return; }
      Put(offset, text);
      if terminated { Put(offset + |text|, [NUL]); }
      offset := offset + |text|;
    }

    /** Reserve and write `text` with its NUL, leaving the offset in front of it. */
    method Place(ghost before: bytes, text: bytes, needed: nat) returns (ok: bool)
      requires Ready(before) && |text| + 1 <= needed
      modifies this`buffer, this`length, buffer
      ensures Frame() && (ok <==> |before| + needed + 1 <= limit)
      ensures ok ==> Wrote(before + text, |before|)
    {
      ok := Ensure(needed);
      if !ok { return; }
      Put(offset, text);
      Put(offset + |text|, [NUL]);
      WithNul(buffer[..], before, text);
    }

    /** update_offset: strlen from the offset on. */
    method UpdateOffset(ghost text: bytes, ghost from: nat)
      requires Wrote(text, from) && NulFree(text)
      modifies this`offset
      ensures Ready(text)
    {
      while buffer[offset] != NUL
        invariant Wrote(text, from)
        decreases |text| - offset
      {
        assert offset < |text|;
        offset := offset + 1;
      }
      assert forall k :: 0 <= k < |text| ==> buffer[k] == text[k];
    }

    /** print_string_ptr: count the escapes, reserve exactly the literal's size, then copy or escape. */
    method PrintString(ghost before: bytes, input: bytes) returns (ok: bool)
      requires Ready(before) && NulFree(input)
      modifies this`buffer, this`length, buffer
      ensures Frame() && (ok <==> |before| + |Quoted(input)| + 2 <= limit)
      ensures ok ==> Wrote(before + Quoted(input), |before|)
    {
      hide NulFree, Quoted;
      var escapes := CountEscapes(input);
      QuotedLength(input);
      ok := Ensure(|input| + escapes + 3);
      if !ok { return; }
      assert buffer[..offset] == before;
      WriteLiteral(input, escapes);
      WithNul(buffer[..], before, Quoted(input));
    }

    method WriteLiteral(input: bytes, escapes: nat)
      requires NulFree(input) && |input| + escapes == |Escape(input)|
      requires offset + |Escape(input)| + 3 <= buffer.Length
      modifies buffer
      ensures buffer[..offset + |Quoted(input)| + 1] == old(buffer[..offset]) + Quoted(input) + [NUL]
    {
      hide NulFree, Escape;
      var outputLength := |input| + escapes;
      QuotedParts(buffer[..offset], input);
      Put(offset, [QUOTE]);
      if escapes == 0 {
        EscapeNothing(input);
        Put(offset + 1, input);
      } else {
        WriteEscaped(offset + 1, input);
      }
      Put(offset + outputLength + 1, [QUOTE]);
      Put(offset + outputLength + 2, [NUL]);
    }

    /** The escaping loop. The NUL that sprintf leaves behind \u00XX is overwritten by what follows. */
    method WriteEscaped(start: nat, input: bytes)
      requires NulFree(input) && start + |Escape(input)| + 1 <= buffer.Length
      modifies buffer
      ensures buffer[..start + |Escape(input)|] == old(buffer[..start]) + Escape(input)
    {
      hide EscapeByte, Escape;
      var k, position := 0, start;
      ghost var prefix := buffer[..start];
      NothingEscaped();
      assert buffer[..start] == prefix + [];
      while k < |input|
        invariant 0 <= k <= |input| && start <= position == start + |Escape(input[..k])| <= buffer.Length
        invariant buffer[..position] == prefix + Escape(input[..k])
      {
        EscapeStep(input, k);
        ghost var done := Escape(input[..k]);
        position := WriteByte(position, input[k]);
        Assoc(prefix, done, EscapeByte(input[k]));
        k := k + 1;
      }
      assert input[..|input|] == input;
    }

    /** One byte of the escaping loop: its switch over the byte. */
    method WriteByte(position: nat, b: byte) returns (next: nat)
      requires b != NUL && position + |EscapeByte(b)| + 1 <= buffer.Length
      modifies buffer
      ensures next == position + |EscapeByte(b)|
      ensures buffer[..next] == old(buffer[..position]) + EscapeByte(b)
    {
      ghost var prefix := buffer[..position];
      next := position;
      if b > 31 && b != QUOTE && b != BACKSLASH {
        Put(next, [b]);
        next := next + 1;
      } else {
        var letter :=
          if b == BACKSLASH then BACKSLASH
          else if b == QUOTE then QUOTE
          else if b == 8 then 98
          else if b == 12 then 102
          else if b == NEWLINE then 110
          else if b == RETURN then 114
          else if b == TAB then 116
          else NUL;
        EscapeIs(b, letter);
        hide EscapeByte;
        Put(next, [BACKSLASH]);
        next := next + 1;
        next := WriteEscape(next, b, letter, prefix);
        next := next + 1;
      }
    }

    /** What goes behind the backslash: a letter, or sprintf's u00XX with the NUL it leaves. */
    method WriteEscape(start: nat, b: byte, letter: byte, ghost prefix: bytes) returns (next: nat)
      requires (b < 32 || letter != NUL) && start + |Escaping(b, letter)| + 1 <= buffer.Length
      requires buffer[..start] == prefix + [BACKSLASH]
      modifies buffer
      ensures next + 1 == start + |Escaping(b, letter)| && next < buffer.Length
      ensures buffer[..next + 1] == prefix + ([BACKSLASH] + Escaping(b, letter))
    {
      next := start;
      if letter != NUL {
        Put(next, [letter]);
        Assoc(prefix, [BACKSLASH], [letter]);
      } else {
        var code := [117, 48, 48, HexDigit(b / 16), HexDigit(b % 16)];
        Put(next, code);
        Put(next + 5, [NUL]);
        Assoc(prefix, [BACKSLASH], code);
        next := next + 4;
      }
    }

    /** Success needs room for the text and two bytes more, no matter which printer runs out first. */
    ghost predicate Fits(before: bytes, t: bytes)
    {
      |before| + |t| + 2 <= limit
    }

    /** What every printer promises: it succeeds exactly when the whole text fits, and then the buffer
        holds the text and a NUL with the offset somewhere inside. */
    twostate predicate Printed(ok: bool, before: bytes, t: bytes)
      reads this, buffer
    {
      && Frame() && (ok <==> Fits(before, t))
      && (ok ==> Wrote(before + t, |before|) && depth == old(depth))
    }

    method PrintNumber(ghost before: bytes, x: real) returns (ok: bool)
      requires Ready(before) && PlainInteger(x)
      modifies this`buffer, this`length, this`offset, buffer
      ensures Printed(ok, before, IntText(x.Floor))
    {
      var text := IntText(x.Floor);
      ok := Ensure(|text| + 1);
      if !ok { return; }
      Put(offset, text);
      Put(offset + |text|, [NUL]);
      WithNul(buffer[..], before, text);
      offset := offset + |text|;
    }

    /** print_value. */
    method PrintValue(ghost before: bytes, item: Item) returns (ok: bool)
      requires Ready(before) && item.Tree() && Printable(item.Document()) && NulFree(before)
      modifies this`buffer, this`length, this`offset, this`depth, buffer
      ensures Printed(ok, before, Serial(old(item.Document()), format, old(depth)))
      decreases item.repr, 1
    {
      hide Item.Tree, Item.Elements, Item.Members;
      match item.content {
        case Null => ok := Place(before, NULL_TEXT, 5);
        case False => ok := Place(before, FALSE_TEXT, 6);
        case True => ok := Place(before, TRUE_TEXT, 5);
        case Number(x) => ok := PrintNumber(before, x);
        case Text(s) => ok := PrintString(before, s);
        case Array(_) => ok := PrintArray(before, item);
        case Object(_) => ok := PrintObject(before, item);
      }
    }

    /** print_array. */
    method PrintArray(ghost before: bytes, item: Item) returns (ok: bool)
      requires Ready(before) && item.Tree() && item.content.Array? && Printable(item.Document()) && NulFree(before)
      modifies this`buffer, this`length, this`offset, this`depth, buffer
      ensures Printed(ok, before, Serial(old(item.Document()), format, old(depth)))
      decreases item.repr, 0, 5
    {
      hide Ready, Wrote, Valid, NulFree, PrintableItems, Serial, ItemsSerial, Item.Tree, Item.Elements, Linked;
      ghost var items := item.Elements(|item.kids|);
      ghost var all := before + [LBRACKET] + ItemsSerial(items, format, depth + 1);
      ok := Emit(before, [LBRACKET], 1, false);
      ArraySerial(before, items, format, depth);
      if !ok { return; }
      depth := depth + 1;
      ByteNulFree();
      NulFreeJoin(before, [LBRACKET]);
      ok := PrintItems(before + [LBRACKET], item);
      if !ok { return; }
      ok := Place(all, [RBRACKET], 2);
      if ok { WroteEarlier(all + [RBRACKET], |all|, |before|); }
      depth := depth - 1;
    }

    /** The loop along the chain of elements. */
    method PrintItems(ghost start: bytes, item: Item) returns (ok: bool)
      requires Ready(start) && item.Tree() && PrintableItems(item.Elements(|item.kids|)) && NulFree(start)
      modifies this`buffer, this`length, this`offset, this`depth, buffer
      ensures var text := ItemsSerial(old(item.Elements(|item.kids|)), format, old(depth));
              Frame() && (!ok ==> !Fits(start, text)) && (ok ==> Ready(start + text) && depth == old(depth))
      decreases item.repr, 0, 4
    {
      hide Ready, Wrote, Valid, NulFree, Printable, PrintableItems, Serial, ItemsSerial, ItemPart;
      hide Item.Tree, Item.Elements, Item.Document, Chain;
      ghost var items := item.Elements(|item.kids|);
      ghost var text, all := start, start + ItemsSerial(items, format, depth);
      var element := item.child;
      ghost var k := 0;
      FirstChild(item);
      ElementsOf(item, |item.kids|);
      assert items[0..] == items;
      while element != null
        invariant 0 <= k <= |items| == |item.kids| && element == if k < |item.kids| then item.kids[k] else null
        invariant item.Tree() && item.Elements(|item.kids|) == items && Frame() && depth == old(depth)
        invariant Ready(text) && NulFree(text) && PrintableItems(items[k..])
        invariant text + ItemsSerial(items[k..], format, depth) == all
        decreases |items| - k
      {
        ItemsNext(text, items, k, format, depth);
        ElementsOf(item, |item.kids|);
        NextChild(item, k);
        ok := PrintElement(text, element);
        if !ok { return; }
        text := text + ItemPart(items[k], format, depth, k + 1 == |items|);
        element := element.next;
        k := k + 1;
      }
      NothingLeft(text, items[k..], [], format, depth);
      ok := true;
    }

    /** One turn of the element loop: the element, then the comma unless it is the last. */
    method PrintElement(ghost text: bytes, element: Item) returns (ok: bool)
      requires Ready(text) && element.Tree() && Printable(element.Document()) && NulFree(text)
      modifies this`buffer, this`length, this`offset, this`depth, buffer
      ensures var part := ItemPart(old(element.Document()), format, old(depth), element.next == null);
              && Frame() && (ok <==> Fits(text, part))
              && (ok ==> Ready(text + part) && depth == old(depth) && NulFree(text + part))
      decreases element.repr, 3
    {
      hide Ready, Wrote, Valid, NulFree, Printable, Serial, Item.Tree, Item.Document;
      ghost var v := element.Document();
      ghost var t := Serial(v, format, depth);
      ok := PrintValue(text, element);
      if !ok { return; }
      SerialNulFree(v, format, depth);
      NulFreeJoin(text, t);
      UpdateOffset(text + t, |text|);
      assert t + [] == t;
      if element.next != null {
        var sep := if format then [COMMA, SPACE] else [COMMA];
        ok := Emit(text + t, sep, |sep| + 1, true);
        PartsNulFree(format, depth, false);
        NulFreeJoin(text + t, sep);
        Assoc(text, t, sep);
      }
    }

    /** print_object. */
    method PrintObject(ghost before: bytes, item: Item) returns (ok: bool)
      requires Ready(before) && item.Tree() && item.content.Object? && Printable(item.Document()) && NulFree(before)
      modifies this`buffer, this`length, this`offset, this`depth, buffer
      ensures Printed(ok, before, Serial(old(item.Document()), format, old(depth)))
      decreases item.repr, 0, 5
    {
      hide Ready, Wrote, Valid, NulFree, PrintableMembers, Serial, MembersSerial, Item.Tree, Item.Members, Linked;
      ghost var members := item.Members(|item.kids|);
      var open := if format then [LBRACE, NEWLINE] else [LBRACE];
      ghost var all := before + open + MembersSerial(members, format, depth + 1);
      ok := Emit(before, open, |open| + 1, false);
      ObjectSerial(before, members, format, depth);
      if !ok { return; }
      depth := depth + 1;
      PartsNulFree(format, depth, true);
      NulFreeJoin(before, open);
      ok := PrintMembers(before + open, item);
      if !ok { return; }
      var close := (if format then Tabs(depth - 1) else []) + [RBRACE];
      ok := Place(all, close, if format then depth + 1 else 2);
      if ok { WroteEarlier(all + close, |all|, |before|); }
      depth := depth - 1;
    }

    /** The loop along the chain of members. */
    method PrintMembers(ghost start: bytes, item: Item) returns (ok: bool)
      requires Ready(start) && item.Tree() && PrintableMembers(item.Members(|item.kids|)) && NulFree(start)
      modifies this`buffer, this`length, this`offset, this`depth, buffer
      ensures var text := MembersSerial(old(item.Members(|item.kids|)), format, old(depth));
              Frame() && (!ok ==> !Fits(start, text)) && (ok ==> Ready(start + text) && depth == old(depth))
      decreases item.repr, 0, 4
    {
      hide Ready, Wrote, Valid, NulFree, Printable, PrintableMembers, Serial, MembersSerial, MemberPart;
      hide Item.Tree, Item.Members, Item.Document, Chain;
      ghost var members := item.Members(|item.kids|);
      ghost var text, all := start, start + MembersSerial(members, format, depth);
      var member := item.child;
      ghost var k := 0;
      FirstChild(item);
      MembersOf(item, |item.kids|);
      assert members[0..] == members;
      while member != null
        invariant 0 <= k <= |members| == |item.kids| && member == if k < |item.kids| then item.kids[k] else null
        invariant item.Tree() && item.Members(|item.kids|) == members && Frame() && depth == old(depth)
        invariant Ready(text) && NulFree(text) && PrintableMembers(members[k..])
        invariant text + MembersSerial(members[k..], format, depth) == all
        decreases |members| - k
      {
        MembersNext(text, members, k, format, depth);
        MembersOf(item, |item.kids|);
        NextChild(item, k);
        ok := PrintMember(text, member);
        if !ok { return; }
        text := text + MemberPart(members[k], format, depth, k + 1 == |members|);
        member := member.next;
        k := k + 1;
      }
      NothingLeft(text, [], members[k..], format, depth);
      ok := true;
    }

    /** One turn of the member loop: indentation, key, colon, value, and the comma and newline that follow. */
    method PrintMember(ghost text: bytes, member: Item) returns (ok: bool)
      requires Ready(text) && member.Tree() && NulFree(Name(member.key)) && Printable(member.Document())
      requires NulFree(text)
      modifies this`buffer, this`length, this`offset, this`depth, buffer
      ensures var m := Member(Name(member.key), old(member.Document()));
              var part := MemberPart(m, format, old(depth), member.next == null);
              && Frame() && (ok <==> Fits(text, part))
              && (ok ==> Ready(text + part) && depth == old(depth) && NulFree(text + part))
      decreases member.repr, 3
    {
      hide Ready, Wrote, Valid, NulFree, Printable, Serial, MemberHead, Item.Tree, Item.Document;
      ghost var m := Member(Name(member.key), member.Document());
      ghost var head, t := MemberHead(m, format, depth), Serial(m.value, format, depth);
      ok := PrintKey(text, Name(member.key));
      SameHead(m, format, depth);
      HeadNulFree(m, format, depth);
      NulFreeJoin(text, head);
      if !ok { return; }
      ok := PrintValue(text + head, member);
      if !ok { return; }
      SerialNulFree(m.value, format, depth);
      NulFreeJoin(text + head, t);
      UpdateOffset(text + head + t, |text + head|);
      var last := member.next == null;
      var end := (if last then [] else [COMMA]) + (if format then [NEWLINE] else []);
      ok := Emit(text + head + t, end, |end| + 1, true);
      PartsNulFree(format, depth, last);
      NulFreeJoin(text + head + t, end);
      MemberParts(text, m, format, depth, last);
    }

    method PrintKey(ghost text: bytes, key: bytes) returns (ok: bool)
      requires Ready(text) && NulFree(key) && NulFree(text)
      modifies this`buffer, this`length, this`offset, buffer
      ensures Frame() && (ok <==> |text| + |KeyPart(key, format, depth)| + 1 <= limit)
      ensures ok ==> Ready(text + KeyPart(key, format, depth))
    {
      hide Ready, Wrote, Valid, NulFree, Quoted, Indent;
      ghost var ind, sep, q := Indent(format, depth), KeySeparator(format), Quoted(key);
      KeyParts(text, key, format, depth);
      if format {
        ok := Emit(text, Tabs(depth), depth, false);
        if !ok { return; }
      }
      PartsNulFree(format, depth, true);
      NulFreeJoin(text, ind);
      ok := PrintString(text + ind, key);
      if !ok { return; }
      QuotedNulFree(key);
      NulFreeJoin(text + ind, q);
      UpdateOffset(text + ind + q, |text + ind|);
      ok := Emit(text + ind + q, if format then [COLON, TAB] else [COLON], if format then 2 else 1, false);
    }
  }

  // ----- Entry points

  const DEFAULT_BUFFER_SIZE: nat := 256

  /** cJSON_Print and cJSON_PrintUnformatted: the exact text, unless it cannot fit any buffer. */
  method Print(item: Item?, fmt: bool) returns (printed: Option<bytes>)
    requires item != null ==> item.Tree() && Printable(item.Document())
    ensures item == null ==> printed == None
    ensures item != null ==>
              var t := Serial(item.Document(), fmt, 0); printed == if |t| + 2 <= 2147483647 then Some(t) else None
  {
    hide Item.Tree, Item.Document, Serial, Printable;
    printed := PrintBuffered(item, DEFAULT_BUFFER_SIZE, fmt);
  }

  /** cJSON_PrintBuffered: the caller's guess at the size never shows in the result. */
  method PrintBuffered(item: Item?, prebuffer: int, fmt: bool) returns (printed: Option<bytes>)
    requires (item != null ==> item.Tree() && Printable(item.Document())) && prebuffer <= INT_MAX
    ensures item == null || prebuffer < 0 ==> printed == None
    ensures item != null && prebuffer >= 0 ==>
              var t := Serial(item.Document(), fmt, 0); printed == if |t| + 2 <= 2147483647 then Some(t) else None
  {
    hide Item.Tree, Item.Document, Serial, Printable;
    if prebuffer < 0 || item == null { return None; }
    var storage := new byte[prebuffer];
    var p := new Printer(storage, false, fmt);
    ghost var v := item.Document();
    ghost var t := Serial(v, fmt, 0);
    assert [] + t == t;
    var ok := p.PrintValue([], item);
    if !ok { return None; }
    SerialNulFree(v, fmt, 0);
    p.UpdateOffset(t, 0);
    printed := Some(p.buffer[..p.offset]);
  }

  /** cJSON_PrintPreallocated: it succeeds exactly when two bytes more than the text are available,
      and then leaves the terminated text at the front of the caller's buffer. */
  method PrintPreallocated(item: Item?, storage: array<byte>, len: int, fmt: bool) returns (ok: bool)
    requires item != null ==> item.Tree() && Printable(item.Document())
    requires len <= INT_MAX && (len >= 0 ==> storage.Length == len)
    modifies storage
    ensures ok <==> item != null && len >= |Serial(old(item.Document()), fmt, 0)| + 2
    ensures ok ==> var t := Serial(old(item.Document()), fmt, 0); storage[..|t| + 1] == t + [NUL]
  {
    hide Item.Tree, Item.Document, Serial, Printable;
    if len < 0 || item == null { return false; }
    var p := new Printer(storage, true, fmt);
    ghost var t := Serial(item.Document(), fmt, 0);
    assert [] + t == t;
    ok := p.PrintValue([], item);
    assert ok ==> storage[..|t| + 1] == storage[..|t|] + [storage[|t|]];
  }

  // ----- The pieces the loops print

  ghost function ItemPart(v: Value, fmt: bool, depth: nat, last: bool): bytes {
    Serial(v, fmt, depth) + if last then [] else ItemSeparator(fmt)
  }

  ghost function MemberPart(m: Member, fmt: bool, depth: nat, last: bool): bytes {
    MemberHead(m, fmt, depth) + Serial(m.value, fmt, depth) + MemberEnd(fmt, last)
  }

  ghost function KeyPart(key: bytes, fmt: bool, depth: nat): bytes {
    Indent(fmt, depth) + Quoted(key) + KeySeparator(fmt)
  }

  lemma SameHead(m: Member, fmt: bool, depth: nat)
    ensures KeyPart(m.key, fmt, depth) == MemberHead(m, fmt, depth)
  {
  }

  lemma KeyParts(text: bytes, key: bytes, fmt: bool, depth: nat)
    ensures text + KeyPart(key, fmt, depth) == text + Indent(fmt, depth) + Quoted(key) + KeySeparator(fmt)
    ensures Indent(fmt, depth) == if fmt then Tabs(depth) else []
    ensures !fmt ==> text + Indent(fmt, depth) == text
    ensures KeySeparator(fmt) == if fmt then [COLON, TAB] else [COLON]
  {
    hide Quoted, Indent;
    Assoc(text, Indent(fmt, depth), Quoted(key));
    Assoc(text, Indent(fmt, depth) + Quoted(key), KeySeparator(fmt));
    NoIndent(fmt, depth);
  }

  lemma NoIndent(fmt: bool, depth: nat)
    ensures Indent(fmt, depth) == if fmt then Tabs(depth) else []
  {
  }

  lemma ArraySerial(before: bytes, items: seq<Value>, fmt: bool, depth: nat)
    ensures var body := ItemsSerial(items, fmt, depth + 1);
            && before + [LBRACKET] + body + [RBRACKET] == before + Serial(Array(items), fmt, depth)
            && |Serial(Array(items), fmt, depth)| == |body| + 2
  {
    hide ItemsSerial;
    var body := ItemsSerial(items, fmt, depth + 1);
    Assoc(before, [LBRACKET], body);
    Assoc(before, [LBRACKET] + body, [RBRACKET]);
  }

  lemma ItemsNext(text: bytes, items: seq<Value>, k: nat, fmt: bool, depth: nat)
    requires k < |items| && PrintableItems(items[k..])
    ensures Printable(items[k]) && PrintableItems(items[k + 1..])
    ensures var part, rest := ItemPart(items[k], fmt, depth, k + 1 == |items|), ItemsSerial(items[k + 1..], fmt, depth);
            && (text + part) + rest == text + ItemsSerial(items[k..], fmt, depth)
            && |part| <= |ItemsSerial(items[k..], fmt, depth)|
  {
    hide Printable, Serial;
    assert items[k..][1..] == items[k + 1..] && items[k..][0] == items[k];
    var s, rest := Serial(items[k], fmt, depth), ItemsSerial(items[k + 1..], fmt, depth);
    if k + 1 == |items| {
      assert items[k + 1..] == [];
      assert s + [] == s;
    } else {
      assert ItemsSerial(items[k..], fmt, depth) == s + ItemSeparator(fmt) + rest;
      Assoc(text, s + ItemSeparator(fmt), rest);
    }
  }

  lemma NothingLeft(text: bytes, items: seq<Value>, members: seq<Member>, fmt: bool, depth: nat)
    requires items == [] && members == []
    ensures text + ItemsSerial(items, fmt, depth) == text && text + MembersSerial(members, fmt, depth) == text
  {
  }

  lemma ObjectSerial(before: bytes, members: seq<Member>, fmt: bool, depth: nat)
    ensures var body := MembersSerial(members, fmt, depth + 1);
            var close := (if fmt then Tabs(depth) else []) + [RBRACE];
            && Opening(fmt) == (if fmt then [LBRACE, NEWLINE] else [LBRACE])
            && before + Opening(fmt) + body + close == before + Serial(Object(members), fmt, depth)
            && |Serial(Object(members), fmt, depth)| == |Opening(fmt)| + |body| + |close|
  {
    hide MembersSerial;
    var open, body, ind := Opening(fmt), MembersSerial(members, fmt, depth + 1), Indent(fmt, depth);
    Assoc(before, open, body);
    Assoc(before, open + body, ind);
    Assoc(before, open + body + ind, [RBRACE]);
    Assoc(before + open + body, ind, [RBRACE]);
  }

  lemma MembersNext(text: bytes, members: seq<Member>, k: nat, fmt: bool, depth: nat)
    requires k < |members| && PrintableMembers(members[k..])
    ensures NulFree(members[k].key) && Printable(members[k].value) && PrintableMembers(members[k + 1..])
    ensures var part := MemberPart(members[k], fmt, depth, k + 1 == |members|);
            var rest := MembersSerial(members[k + 1..], fmt, depth);
            && (text + part) + rest == text + MembersSerial(members[k..], fmt, depth)
            && |part| <= |MembersSerial(members[k..], fmt, depth)|
  {
    hide Printable, Serial, NulFree, MemberHead, MemberEnd;
    assert members[k..][1..] == members[k + 1..] && members[k..][0] == members[k];
    var part := MemberPart(members[k], fmt, depth, k + 1 == |members|);
    var rest := MembersSerial(members[k + 1..], fmt, depth);
    assert MembersSerial(members[k..], fmt, depth) == part + rest;
    Assoc(text, part, rest);
  }

  lemma MemberParts(text: bytes, m: Member, fmt: bool, depth: nat, last: bool)
    ensures var head, t := MemberHead(m, fmt, depth), Serial(m.value, fmt, depth);
            var end := (if last then [] else [COMMA]) + (if fmt then [NEWLINE] else []);
            text + MemberPart(m, fmt, depth, last) == text + head + t + end
  {
    hide MemberHead, Serial;
    var head, t, end := MemberHead(m, fmt, depth), Serial(m.value, fmt, depth), MemberEnd(fmt, last);
    Assoc(text, head, t);
    Assoc(text, head + t, end);
  }

  lemma QuotedLength(s: bytes)
    ensures |Quoted(s)| == |Escape(s)| + 2
  {
  }

  function Escaping(b: byte, letter: byte): bytes
    requires b < 32 || letter != NUL
  {
    if letter != NUL then [letter] else [117, 48, 48, HexDigit(b / 16), HexDigit(b % 16)]
  }

  lemma EscapeIs(b: byte, letter: byte)
    requires b != NUL && (b <= 31 || b == QUOTE || b == BACKSLASH)
    requires letter == if b == BACKSLASH then BACKSLASH else if b == QUOTE then QUOTE else if b == 8 then 98
                       else if b == 12 then 102 else if b == NEWLINE then 110 else if b == RETURN then 114
                       else if b == TAB then 116 else NUL
    ensures b < 32 || letter != NUL
    ensures EscapeByte(b) == [BACKSLASH] + Escaping(b, letter) && |EscapeByte(b)| == if letter != NUL then 2 else 6
  {
  }

  /** Stores that follow a prefix append to it. */
  lemma Pasted(c: bytes, prefix: bytes, text: bytes)
    requires |prefix| + |text| <= |c| && (forall k :: 0 <= k < |prefix| ==> c[k] == prefix[k])
    requires forall k :: 0 <= k < |text| ==> c[|prefix| + k] == text[k]
    ensures c[..|prefix| + |text|] == prefix + text
  {
  }

  lemma WithNul(c: bytes, before: bytes, t: bytes)
    requires |before| + |t| + 1 <= |c| && c[..|before| + |t| + 1] == before + t + [NUL]
    ensures c[..|before + t|] == before + t && c[|before + t|] == NUL
  {
    var n := |before| + |t|;
    assert c[..n] == c[..n + 1][..n];
    assert c[n] == c[..n + 1][n];
  }

  lemma NothingEscaped()
    ensures Escape([]) == []
  {
  }

  lemma QuotedParts(before: bytes, s: bytes)
    ensures before + [QUOTE] + Escape(s) + [QUOTE] == before + Quoted(s)
  {
    Assoc(before, [QUOTE], Escape(s));
    Assoc(before, [QUOTE] + Escape(s), [QUOTE]);
  }

  /** The counting loop of print_string_ptr: bytes the literal has beyond the string's own. */
  method CountEscapes(input: bytes) returns (escapes: nat)
    ensures |input| + escapes == |Escape(input)|
  {
    escapes := 0;
    var k := 0;
    while k < |input|
      invariant 0 <= k <= |input| && k + escapes == |Escape(input[..k])|
    {
      EscapeStep(input, k);
      var b := input[k];
      if b == QUOTE || b == BACKSLASH || b == 8 || b == 12 || b == NEWLINE || b == RETURN || b == TAB {
        escapes := escapes + 1;
      } else if b < 32 {
        escapes := escapes + 5;
      }
      k := k + 1;
    }
    assert input[..|input|] == input;
  }

  lemma EscapeStep(s: bytes, k: nat)
    requires k < |s|
    ensures Escape(s[..k + 1]) == Escape(s[..k]) + EscapeByte(s[k])
    ensures |Escape(s[..k])| + |EscapeByte(s[k])| <= |Escape(s)|
  {
    hide EscapeByte;
    assert s[..k + 1] == s[..k] + [s[k]];
    EscapeAppend(s[..k], [s[k]]);
    assert Escape([s[k]]) == EscapeByte(s[k]) + Escape([]);
    assert s == s[..k + 1] + s[k + 1..];
    EscapeAppend(s[..k + 1], s[k + 1..]);
  }

  /** Without escapes the copied string is the escaped one: the fast path is the general one. */
  lemma {:induction false} EscapeNothing(s: bytes)
    requires |Escape(s)| == |s|
    ensures Escape(s) == s
  {
    if s != [] {
      EscapeNulFree(s[1..]);
      assert Escape(s) == EscapeByte(s[0]) + Escape(s[1..]);
      EscapeNothing(s[1..]);
    }
  }
}
