/**
 The editing commands of bin/ed.c over the line table and the temporary file together: what a command
 does to the lines and their texts, when it fails, and what `undo` takes back.
 */
module EdEditor {
  import opened Wrappers
  import opened EdLines
  import opened EdTempFile
  import opened EdTable
  import opened EdTexts
  import opened EdEffects

  /** A command list that has been run: what there was before and after, and whether it ended without an error. */
  datatype Run = Run(before: View, list: seq<Edit>, after: View, ok: bool)

  class Editor {
    const table: LineTable
    const file: TempFile
    ghost var log: seq<Run>

    ghost predicate Valid()
      reads table, table.cur, table.sav, file, file.ibuff, file.obuff
    {
      && table.Valid() && file.Valid()
      && Stored(table.Lines(), file.store) && Stored(table.Saved(), file.store)
    }

    constructor (memory: nat)
      ensures Valid() && table.Lines() == [] && fresh(table) && fresh(file)
      ensures fresh(table.cur) && fresh(table.sav) && fresh(table.names) && fresh(table.savnames)
      ensures fresh(file.ibuff) && fresh(file.obuff)
    {
      table := new LineTable(memory);
      file := new TempFile();
    }

    /** The text of the buffer. */
    ghost function Buffer(): seq<string>
      reads table, table.cur, table.sav, file, file.ibuff, file.obuff
      requires Valid()
    {
      Texts(table.Lines(), file.store)
    }

    ghost function View(): View
      reads table, table.cur, table.names, file
      requires table.dol < table.cur.Length
    {
      EdEffects.View(table.Lines(), file.store, table.dot, table.names[..], table.Capacity(), file.tline)
    }

    /** putline(): the text is stored, and no line of the table changes. */
    method StoreLine(text: string) returns (tl: nat, linebp: Option<string>)
      requires Valid() && Short(text) && file.tline + Need(text) <= LIMIT
      modifies file`iblock, file`oblock, file`ichanged, file`disk, file`mem, file`store, file`tline
      modifies file.ibuff, file.obuff
      ensures Valid() && Grows(old(file.store), file.store)
      ensures HoldsText(tl, text, file.store) && linebp == Rest(text)
      ensures file.tline == old(file.tline) + Need(text)
    {
      hide TempFile.Valid, Text, Stored, Grows, HoldsText, Rest;
      ghost var store := file.store;
      tl, linebp := file.PutLine(text);
      Put(store, file.store, tl, text, linebp);
      StillStored(table.Lines(), store, file.store);
      StillStored(table.Saved(), store, file.store);
    }

    /** One round of the loop of append(): the text in the line buffer becomes the line behind dot. */
    method AppendLine(text: string) returns (ok: bool, linebp: Option<string>)
      requires Valid() && Short(text)
      modifies table`dot, table`dol, table`endcore, table.cur
      modifies file`iblock, file`oblock, file`ichanged, file`disk, file`mem, file`store, file`tline
      modifies file.ibuff, file.obuff
      ensures Valid() && Grows(old(file.store), file.store)
      ensures !ok ==> table.Lines() == old(table.Lines()) && table.dot == old(table.dot)
      ensures ok ==> table.dot == old(table.dot) + 1 && linebp == Rest(text)
      ensures ok ==> var tl := table.Lines()[table.dot - 1];
        && tl % 2 == 0 && tl in file.store && file.store[tl] == Text(text)
        && table.Lines() == old(table.Lines()[..table.dot]) + [tl] + old(table.Lines()[table.dot..])
      ensures ok == (old(table.Free()) > 0 && old(file.tline) + Need(text) <= LIMIT)
      ensures table.Capacity() == old(table.Capacity()) && table.Free() == old(table.Free()) - if ok then 1 else 0
      ensures file.tline == old(file.tline) + if ok then Need(text) else 0
    {
      hide TempFile.Valid, Text, Stored, Grows, Rest;
      ghost var s := table.Lines();
      GrowsFirst(file.store);
      linebp := None;
      ok := table.Room();
      if !ok { return; }
      if file.tline + Need(text) > LIMIT { return false, None; }
      var tl;
      tl, linebp := StoreLine(text);
      StoredInsert(s, table.dot, tl, file.store);
      table.Insert(tl);
    }

    /** A round of append() on the way through `texts`. */
    method AppendNext(text: string, ghost s: seq<nat>, ghost at: nat, ghost texts: seq<string>)
      returns (ok: bool, linebp: Option<string>)
      requires Valid() && Short(text)
      requires Appended(s, at, table.Lines(), table.dot, texts, file.store) && at <= table.dot < at + |texts|
      requires texts[table.dot - at] == text
      modifies table`dot, table`dol, table`endcore, table.cur
      modifies file`iblock, file`oblock, file`ichanged, file`disk, file`mem, file`store, file`tline
      modifies file.ibuff, file.obuff
      ensures Valid() && Grows(old(file.store), file.store)
      ensures Appended(s, at, table.Lines(), table.dot, texts, file.store)
      ensures table.dot == old(table.dot) + (if ok then 1 else 0) && (ok ==> linebp == Rest(text))
      ensures table.dol == old(table.dol) + if ok then 1 else 0
      ensures ok == (old(table.Free()) > 0 && old(file.tline) + Need(text) <= LIMIT)
      ensures table.Capacity() == old(table.Capacity()) && table.Free() == old(table.Free()) - if ok then 1 else 0
      ensures file.tline == old(file.tline) + if ok then Need(text) else 0
    {
      hide TempFile.Valid, Appended, Text, Grows, Stored, Rest;
      ghost var s', dot, store := table.Lines(), table.dot, file.store;
      ok, linebp := AppendLine(text);
      if ok {
        AppendedOne(s, at, s', dot, texts, store, table.Lines()[table.dot - 1], file.store);
      } else {
        AppendedGrows(s, at, s', dot, texts, store, file.store);
      }
    }

    /** append() with the lines that its function argument hands over; false is an error on the way. */
    method AppendLines(at: nat, texts: seq<string>) returns (ok: bool)
      requires Valid() && at <= table.dol
      modifies table`dot, table`dol, table`endcore, table.cur
      modifies file`iblock, file`oblock, file`ichanged, file`disk, file`mem, file`store, file`tline
      modifies file.ibuff, file.obuff
      ensures Valid() && Grows(old(file.store), file.store)
      ensures Appended(old(table.Lines()), at, table.Lines(), table.dot, texts, file.store)
      ensures ok <==> table.dot == at + |texts|
      ensures ok <==> Fits(texts, old(table.Free()), old(file.tline)) && forall k :: 0 <= k < |texts| ==>
        Short(texts[k])
      ensures table.Capacity() == old(table.Capacity())
      ensures file.tline == old(file.tline) + Needs(texts[..table.dot - at])
    {
      hide TempFile.Valid, Appended, Text, Grows, Stored, Rest, Filled, Fits, Need, Needs, LineTable.Free,
      LineTable.Capacity;
      GrowsFirst(file.store);
      file.InsideLimit();
      ghost var free, tline := table.Free(), file.tline;
      FilledFirst(texts, free, tline);
      ghost var s := table.Lines();
      table.dot := at;
      AppendedNone(s, at, texts, file.store);
      for i := 0 to |texts|
        modifies table`dot, table`dol, table`endcore, table.cur
        modifies file`iblock, file`oblock, file`ichanged, file`disk, file`mem, file`store, file`tline
        modifies file.ibuff, file.obuff
        invariant Valid() && Grows(old(file.store), file.store) && table.dot == at + i
        invariant Appended(s, at, table.Lines(), table.dot, texts, file.store)
        invariant table.Capacity() == old(table.Capacity())
        invariant forall k :: 0 <= k < i ==> Short(texts[k])
        invariant Filled(texts, i, free, tline, table.Free(), file.tline)
      {
        FilledNext(texts, i, free, tline, table.Free(), file.tline);
        if |texts[i]| >= BLOCK || NUL in texts[i] { return false; }
        ghost var store := file.store;
        var linebp;
        ok, linebp := AppendNext(texts[i], s, at, texts);
        GrowsOn(old(file.store), store, file.store);
        if !ok { return; }
      }
      FilledLast(texts, free, tline, table.Free(), file.tline);
      ok := true;
    }

    /** getcopy() and a round of append(). */
    method CopyLine(a: nat) returns (ok: bool)
      requires Valid() && 1 <= a <= table.dol
      modifies table`dot, table`dol, table`endcore, table.cur
      modifies file`iblock, file`oblock, file`ichanged, file`disk, file`mem, file`store, file`tline
      modifies file.ibuff, file.obuff
      ensures Valid() && Grows(old(file.store), file.store)
      ensures !ok ==> table.Lines() == old(table.Lines()) && table.dot == old(table.dot)
      ensures ok ==> table.dot == old(table.dot) + 1
      ensures ok ==> var tl := table.Lines()[table.dot - 1];
        && HoldsText(tl, old(Buffer()[a - 1]), file.store)
        && table.Lines() == old(table.Lines()[..table.dot]) + [tl] + old(table.Lines()[table.dot..])
      ensures ok == (old(table.Free()) > 0 && old(file.tline) + Need(old(Buffer()[a - 1])) <= LIMIT)
      ensures table.Capacity() == old(table.Capacity()) && table.Free() == old(table.Free()) - if ok then 1 else 0
      ensures file.tline == old(file.tline) + if ok then Need(old(Buffer()[a - 1])) else 0
    {
      hide TempFile.Valid, Text, Grows;
      assert Unmark(table.Lines()[a - 1]) in file.store;
      var text := file.GetLine(table.cur[a]);
      var linebp;
      ok, linebp := AppendLine(text);
    }

    /** The same on the way through `texts`, of which the line shows the next. */
    method CopyNext(a: nat, ghost s: seq<nat>, ghost texts: seq<string>) returns (ok: bool)
      requires Valid() && 1 <= a <= table.dol && |s| <= table.dot == table.dol < |s| + |texts|
      requires Appended(s, |s|, table.Lines(), table.dot, texts, file.store)
      requires Buffer()[a - 1] == texts[table.dot - |s|]
      modifies table`dot, table`dol, table`endcore, table.cur
      modifies file`iblock, file`oblock, file`ichanged, file`disk, file`mem, file`store, file`tline
      modifies file.ibuff, file.obuff
      ensures Valid() && Grows(old(file.store), file.store)
      ensures table.dot == table.dol == old(table.dol) + if ok then 1 else 0
      ensures Appended(s, |s|, table.Lines(), table.dot, texts, file.store)
      ensures ok == (old(table.Free()) > 0 && old(file.tline) + Need(texts[old(table.dot) - |s|]) <= LIMIT)
      ensures table.Capacity() == old(table.Capacity()) && table.Free() == old(table.Free()) - if ok then 1 else 0
      ensures file.tline == old(file.tline) + if ok then Need(texts[old(table.dot) - |s|]) else 0
    {
      hide TempFile.Valid, Appended, Text, Grows, Stored, HoldsText;
      ghost var s', dot, store := table.Lines(), table.dot, file.store;
      ok := CopyLine(a);
      if ok {
        AppendedOne(s, |s|, s', dot, texts, store, table.Lines()[table.dot - 1], file.store);
      } else {
        AppendedGrows(s, |s|, s', dot, texts, store, file.store);
      }
    }

    /** A round of the loop: one text more has been put in. */
    method CopyRound(a: nat, ghost s: seq<nat>, ghost texts: seq<string>, ghost free: nat, ghost tline: nat)
      returns (ok: bool)
      requires Valid() && 1 <= a <= table.dol && |s| <= table.dot == table.dol < |s| + |texts|
      requires Appended(s, |s|, table.Lines(), table.dot, texts, file.store)
      requires Buffer()[a - 1] == texts[table.dot - |s|]
      requires Filled(texts, table.dot - |s|, free, tline, table.Free(), file.tline)
      modifies table`dot, table`dol, table`endcore, table.cur
      modifies file`iblock, file`oblock, file`ichanged, file`disk, file`mem, file`store, file`tline
      modifies file.ibuff, file.obuff
      ensures Valid() && Grows(old(file.store), file.store)
      ensures table.dot == table.dol == old(table.dol) + if ok then 1 else 0
      ensures Appended(s, |s|, table.Lines(), table.dot, texts, file.store)
      ensures table.Capacity() == old(table.Capacity())
      ensures ok ==> Filled(texts, table.dot - |s|, free, tline, table.Free(), file.tline)
      ensures !ok ==> !Fits(texts, free, tline) && file.tline == tline + Needs(texts[..table.dot - |s|])
    {
      hide TempFile.Valid, Appended, Text, Grows, Stored, HoldsText, Filled, Fits, Need, Needs, LineTable.Free,
        LineTable.Capacity;
      FilledNext(texts, table.dot - |s|, free, tline, table.Free(), file.tline);
      ok := CopyNext(a, s, texts);
    }

    /** Copies of the lines addr1 to addr2 behind the last line. */
    method CopyToEnd(addr1: nat, addr2: nat) returns (ok: bool)
      requires Valid() && 1 <= addr1 <= addr2 <= table.dol
      modifies table`dot, table`dol, table`endcore, table.cur
      modifies file`iblock, file`oblock, file`ichanged, file`disk, file`mem, file`store, file`tline
      modifies file.ibuff, file.obuff
      ensures Valid() && Grows(old(file.store), file.store) && table.dot == table.dol
      ensures Appended(old(table.Lines()), old(table.dol), table.Lines(), table.dol,
                       old(Buffer())[addr1 - 1..addr2], file.store)
      ensures old(table.dol) <= table.dol <= old(table.dol) + (addr2 + 1 - addr1)
      ensures ok <==> table.dol == old(table.dol) + (addr2 + 1 - addr1)
      ensures ok <==> Fits(old(Buffer())[addr1 - 1..addr2], old(table.Free()), old(file.tline))
      ensures table.Capacity() == old(table.Capacity())
      ensures file.tline == old(file.tline) + Needs(old(Buffer())[addr1 - 1..addr2][..table.dol - old(table.dol)])
    {
      hide TempFile.Valid, Appended, Text, Grows, Stored, HoldsText, Filled, Fits, Need, Needs, LineTable.Free,
      LineTable.Capacity;
      ghost var s, texts := table.Lines(), Buffer()[addr1 - 1..addr2];
      var d, n := table.dol, addr2 + 1 - addr1;
      GrowsFirst(file.store);
      file.InsideLimit();
      ghost var free, tline := table.Free(), file.tline;
      FilledFirst(texts, free, tline);
      AppendedNone(s, d, texts, file.store);
      table.dot := d;
      for i := 0 to n
        modifies table`dot, table`dol, table`endcore, table.cur
        modifies file`iblock, file`oblock, file`ichanged, file`disk, file`mem, file`store, file`tline
        modifies file.ibuff, file.obuff
        invariant Valid() && Grows(old(file.store), file.store) && table.dot == d + i == table.dol
        invariant Appended(s, d, table.Lines(), d + i, texts, file.store)
        invariant table.Capacity() == old(table.Capacity())
        invariant Filled(texts, i, free, tline, table.Free(), file.tline)
      {
        ghost var store := file.store;
        SourceText(s, old(file.store), table.Lines(), d + i, texts, store, addr1, addr2, i);
        ok := CopyRound(addr1 + i, s, texts, free, tline);
        GrowsOn(old(file.store), store, file.store);
        if !ok { return; }
      }
      FilledLast(texts, free, tline, table.Free(), file.tline);
      ok := true;
    }

    /** move(1): copies of the lines addr1 to addr2 are appended and then moved behind line adt. */
    method CopyLines(addr1: nat, addr2: nat, adt: nat) returns (ok: bool)
      requires Valid() && 1 <= addr1 <= addr2 <= table.dol && adt <= table.dol
      modifies table`dot, table`dol, table`endcore, table.cur
      modifies file`iblock, file`oblock, file`ichanged, file`disk, file`mem, file`store, file`tline
      modifies file.ibuff, file.obuff
      ensures Valid() && Grows(old(file.store), file.store)
      ensures Marked(table.Lines()) == old(Marked(table.Lines()))
      ensures ok ==> table.dot == adt + (addr2 + 1 - addr1)
      ensures old(table.dol) <= table.dol <= old(table.dol) + (addr2 + 1 - addr1)
      ensures ok <==> table.dol == old(table.dol) + (addr2 + 1 - addr1)
      ensures ok ==> Appended(old(table.Lines()), adt, table.Lines(), table.dot,
                              old(Buffer())[addr1 - 1..addr2], file.store)
      ensures !ok ==> Appended(old(table.Lines()), old(table.dol), table.Lines(), table.dot,
                               old(Buffer())[addr1 - 1..addr2], file.store)
      ensures ok <==> Fits(old(Buffer())[addr1 - 1..addr2], old(table.Free()), old(file.tline))
      ensures table.Capacity() == old(table.Capacity())
      ensures file.tline == old(file.tline) + Needs(old(Buffer())[addr1 - 1..addr2][..table.dol - old(table.dol)])
    {
      hide TempFile.Valid, Appended, Text, Grows, Stored, Moved, Marked, Needs;
      ghost var s, texts := table.Lines(), Buffer()[addr1 - 1..addr2];
      var d, n := table.dol, addr2 + 1 - addr1;
      ok := CopyToEnd(addr1, addr2);
      ghost var s' := table.Lines();
      AppendedMarks(s, d, s', table.dol, texts, file.store);
      if !ok { return; }
      MarkedMove(s', d, d + n, adt);
      TailMoved(s, s', adt, texts, file.store);
      MovedStored(s', d, d + n, adt, file.store);
      ok := table.MoveBlock(d + 1, table.dol, adt);
    }

    /** rdelete() */
    method DeleteLines(addr1: nat, addr2: nat)
      requires Valid() && 1 <= addr1 <= addr2 <= table.dol
      modifies table`dot, table`dol, table.cur
      ensures Valid() && table.Lines() == old(table.Lines())[..addr1 - 1] + old(table.Lines())[addr2..]
      ensures table.dot == Min(addr1, table.dol)
      ensures Marked(table.Lines()) <= old(Marked(table.Lines()))
    {
      hide TempFile.Valid, Marked;
      ghost var s := table.Lines();
      MarkedReplace(s, addr1 - 1, addr2, []);
      assert s[..addr1 - 1] + [] == s[..addr1 - 1];
      table.RDelete(addr1, addr2);
    }

    /** move(0): false is error 39, which leaves only the marks of the block cleared. */
    method MoveLines(addr1: nat, addr2: nat, adt: nat) returns (ok: bool)
      requires Valid() && 1 <= addr1 <= addr2 <= table.dol && adt <= table.dol
      modifies table`dot, table.cur
      ensures Valid() && ok == !(addr1 <= adt <= addr2)
      ensures Marked(table.Lines()) <= old(Marked(table.Lines()))
      ensures var s := Cleared(old(table.Lines()), addr1 - 1, addr2);
        && table.Lines() == (if ok then Moved(s, addr1 - 1, addr2, adt) else s)
        && (ok ==> 1 <= table.dot && table.Lines()[table.dot - 1] == s[addr2 - 1])
      ensures table.dot == if !ok then old(table.dot) else if adt < addr1 then adt + (addr2 + 1 - addr1) else adt
    {
      hide TempFile.Valid, Marked, Moved, Stored, Cleared;
      ghost var s := table.Lines();
      ClearedLines(s, addr1 - 1, addr2, file.store);
      table.Unmark(addr1, addr2);
      if !(addr1 <= adt <= addr2) {
        ghost var t := table.Lines();
        MarkedMove(t, addr1 - 1, addr2, adt);
        MovedStored(t, addr1 - 1, addr2, adt, file.store);
      }
      ok := table.MoveBlock(addr1, addr2, adt);
    }

    /** join(): false is error 27 or no room. */
    method JoinLines(addr1: nat, addr2: nat) returns (ok: bool)
      requires Valid() && 1 <= addr1 <= addr2 <= table.dol
      modifies table`dot, table`dol, table.cur
      modifies file`iblock, file`oblock, file`ichanged, file`disk, file`mem, file`store, file`tline
      modifies file.ibuff, file.obuff
      ensures Valid() && Grows(old(file.store), file.store)
      ensures Marked(table.Lines()) <= old(Marked(table.Lines()))
      ensures !ok || addr1 == addr2 ==> table.Lines() == old(table.Lines())
      ensures ok && addr1 < addr2 ==> table.dot == addr1 && var tl := table.Lines()[addr1 - 1];
        && HoldsText(tl, Concat(old(Buffer())[addr1 - 1..addr2]), file.store)
        && table.Lines() == old(table.Lines())[..addr1 - 1] + [tl] + old(table.Lines())[addr2..]
      ensures var joined := Concat(old(Buffer())[addr1 - 1..addr2]);
        ok <==> addr1 == addr2 || (|joined| <= BLOCK - 2 && old(file.tline) + Need(joined) <= LIMIT)
      ensures file.tline
        == old(file.tline) + if ok && addr1 < addr2 then Need(Concat(old(Buffer())[addr1 - 1..addr2])) else 0
      ensures !ok || addr1 == addr2 ==> table.dot == old(table.dot) && file.store == old(file.store)
    {
      hide TempFile.Valid, Marked, Stored, Concat, Without, Text, Grows, Need;
      GrowsFirst(file.store);
      if addr1 == addr2 { return true; }
      ghost var s := table.Lines();
      var joined := GetLines(addr1, addr2);
      if |joined| > BLOCK - 2 { return false; }
      if file.tline + Need(joined) > LIMIT { return false; }
      var tl, rest := StoreLine(joined);
      JoinedIs(s, addr1 - 1, addr2, tl, file.store);
      table.Replace(addr1, tl);
      table.RDelete(addr1 + 1, addr2);
      table.dot := addr1;
      ok := true;
    }

    /** The texts of the lines addr1 to addr2 in one. */
    method GetLines(addr1: nat, addr2: nat) returns (joined: string)
      requires Valid() && 1 <= addr1 <= addr2 <= table.dol
      modifies file`iblock, file`oblock, file`ichanged, file`disk, file.ibuff
      ensures Valid() && joined == Concat(Buffer()[addr1 - 1..addr2]) && NUL !in joined
    {
      hide TempFile.Valid, Concat, Stored;
      ghost var texts := Buffer()[addr1 - 1..addr2];
      joined := "";
      ConcatMore([], "");
      assert texts[..0] == [];
      for i := 0 to addr2 + 1 - addr1
        modifies file`iblock, file`oblock, file`ichanged, file`disk, file.ibuff
        invariant Valid() && joined == Concat(texts[..i]) && NUL !in joined
      {
        TextAt(table.Lines(), file.store, addr1 - 1, addr2, i);
        var lp := file.GetLine(table.cur[addr1 + i]);
        ConcatMore(texts[..i], lp);
        assert texts[..i + 1] == texts[..i] + [lp];
        joined := joined + lp;
      }
      assert texts[..addr2 + 1 - addr1] == texts;
    }

    /** A round of that loop. */
    method AppendRest(text: string, ghost s: seq<nat>, ghost at: nat, ghost texts: seq<string>, ghost i: nat,
                      ghost free: nat, ghost tline: nat)
      returns (ok: bool, linebp: Option<string>)
      requires Valid() && Short(text) && i <= |texts| && Rests(Some(text)) == texts[i..]
      requires table.dot == at + i
      requires Appended(s, at, table.Lines(), table.dot, texts, file.store)
      requires Filled(texts, i, free, tline, table.Free(), file.tline)
      modifies table`dot, table`dol, table`endcore, table.cur
      modifies file`iblock, file`oblock, file`ichanged, file`disk, file`mem, file`store, file`tline
      modifies file.ibuff, file.obuff
      ensures Valid() && Grows(old(file.store), file.store) && i < |texts|
      ensures Appended(s, at, table.Lines(), table.dot, texts, file.store)
      ensures table.dot == old(table.dot) + (if ok then 1 else 0) && table.dol == old(table.dol) + if ok then 1 else 0
      ensures ok ==> Rests(linebp) == texts[i + 1..]
      ensures ok && linebp.Some? ==> |linebp.value| < |text| && Short(linebp.value)
      ensures table.Capacity() == old(table.Capacity())
      ensures if ok then Filled(texts, i + 1, free, tline, table.Free(), file.tline) else !Fits(texts, free, tline)
    {
      hide TempFile.Valid, Appended, Text, Grows, Stored, Rest, Rests, Filled, Fits, Need, Needs, LineTable.Free,
        LineTable.Capacity;
      RestsNext(texts, i, text);
      FilledNext(texts, i, free, tline, table.Free(), file.tline);
      RestOk(text);
      ok, linebp := AppendNext(text, s, at, texts);
    }

    /** append() with getsub(): what stands behind newlines in the line buffer becomes lines of its own. */
    method AppendRests(at: nat, linebp0: Option<string>) returns (ok: bool)
      requires Valid() && at <= table.dol && (linebp0.Some? ==> |linebp0.value| < BLOCK && NUL !in linebp0.value)
      modifies table`dot, table`dol, table`endcore, table.cur
      modifies file`iblock, file`oblock, file`ichanged, file`disk, file`mem, file`store, file`tline
      modifies file.ibuff, file.obuff
      ensures Valid() && Grows(old(file.store), file.store)
      ensures Appended(old(table.Lines()), at, table.Lines(), table.dot, Rests(linebp0), file.store)
      ensures ok <==> table.dot == at + |Rests(linebp0)|
      ensures table.dol == old(table.dol) + (table.dot - at)
      ensures ok <==> Fits(Rests(linebp0), old(table.Free()), old(file.tline))
      ensures table.Capacity() == old(table.Capacity())
      ensures ok ==> file.tline == old(file.tline) + Needs(Rests(linebp0))
    {
      hide TempFile.Valid, Appended, Text, Grows, Stored, Rest, Rests, Filled, Fits, Need, Needs, LineTable.Free,
      LineTable.Capacity;
      GrowsFirst(file.store);
      file.InsideLimit();
      ghost var free, tline := table.Free(), file.tline;
      FilledFirst(Rests(linebp0), free, tline);
      RestsNone();
      ghost var s, texts, i: nat := table.Lines(), Rests(linebp0), 0;
      table.dot := at;
      AppendedNone(s, at, texts, file.store);
      var linebp := linebp0;
      assert texts[0..] == texts;
      while linebp.Some?
        modifies table`dot, table`dol, table`endcore, table.cur
        modifies file`iblock, file`oblock, file`ichanged, file`disk, file`mem, file`store, file`tline
        modifies file.ibuff, file.obuff
        invariant Valid() && Grows(old(file.store), file.store) && table.dot == at + i
        invariant i <= |texts| && Rests(linebp) == texts[i..]
        invariant linebp.Some? ==> |linebp.value| < BLOCK && NUL !in linebp.value
        invariant Appended(s, at, table.Lines(), table.dot, texts, file.store)
        invariant table.Capacity() == old(table.Capacity()) && table.dol == old(table.dol) + i
        invariant Filled(texts, i, free, tline, table.Free(), file.tline)
        decreases if linebp.None? then 0 else |linebp.value| + 1
      {
        ghost var store := file.store;
        ok, linebp := AppendRest(linebp.value, s, at, texts, i, free, tline);
        GrowsOn(old(file.store), store, file.store);
        if !ok { return; }
        i := i + 1;
      }
      FilledLast(texts, free, tline, table.Free(), file.tline);
      ok := true;
    }

    /** What substitute() does with a line once its new text is known: the text up to its first newline takes
        the line's place, also for the names that mark it, and the rest becomes lines behind it. */
    method ReplaceLine(at: nat, text: string) returns (ok: bool)
      requires Valid() && 1 <= at <= table.dol
      modifies table`dot, table`dol, table`endcore, table.cur, table.names
      modifies file`iblock, file`oblock, file`ichanged, file`disk, file`mem, file`store, file`tline
      modifies file.ibuff, file.obuff
      ensures Valid() && Grows(old(file.store), file.store)
      ensures Marked(table.Lines()) <= old(Marked(table.Lines()))
      ensures ok ==> table.dot == at + |Rests(Rest(text))| && table.dol == old(table.dol) + |Rests(Rest(text))|
      ensures ok <==> Short(text) && old(file.tline) + Need(text) <= LIMIT &&
                      Fits(Rests(Rest(text)), old(table.Free()), old(file.tline) + Need(text))
      ensures table.Capacity() == old(table.Capacity())
      ensures ok ==> file.tline == old(file.tline) + Need(text) + Needs(Rests(Rest(text)))
      ensures (!ok && table.Lines() == old(table.Lines()) && table.names[..] == old(table.names[..]))
        || Replaced(old(table.Lines()), at, text, table.Lines(), table.dot, old(table.names[..]), table.names[..],
                    file.store)
      ensures ok ==> Replaced(old(table.Lines()), at, text, table.Lines(), table.dot,
                              old(table.names[..]), table.names[..], file.store)
    {
      hide TempFile.Valid, Marked, Stored, Text, Rests, Rest, Appended, Grows, Need, Needs;
      GrowsFirst(file.store);
      if |text| >= BLOCK || NUL in text { return false; }
      if file.tline + Need(text) > LIMIT { return false; }
      ghost var s := table.Lines();
      var tl, linebp := StoreLine(text);
      JoinedIs(s, at - 1, at, tl, file.store);
      Updated(s, at - 1, tl);
      table.Rename(at, tl);
      RestOk(text);
      ghost var t, store := table.Lines(), file.store;
      ok := AppendRests(at, linebp);
      GrowsOn(old(file.store), store, file.store);
      AppendedMarks(t, at, table.Lines(), table.dot, Rests(linebp), file.store);
      HeldOn(tl, text, store, file.store);
    }

    /** One line of substitute(): what it becomes, and how many lines that is more. */
    method SubstituteLine(at: nat, change: string -> Option<string>) returns (ok: bool, nl: nat, found: bool)
      requires Valid() && 1 <= at <= table.dol
      modifies table`dot, table`dol, table`endcore, table.cur, table.names
      modifies file`iblock, file`oblock, file`ichanged, file`disk, file`mem, file`store, file`tline
      modifies file.ibuff, file.obuff
      ensures Valid() && Grows(old(file.store), file.store) && Marked(table.Lines()) <= old(Marked(table.Lines()))
      ensures found == change(old(Buffer()[at - 1])).Some?
      ensures ok ==> var c := Changed(old(Buffer()[at - 1]), change);
        nl == |c| - 1 && Buffer() == old(Buffer())[..at - 1] + c + old(Buffer())[at..]
      ensures table.Capacity() == old(table.Capacity())
      ensures ok == FitsLine(old(Buffer()[at - 1]), change, old(table.Free()), old(file.tline))
      ensures ok ==> table.Free() == old(table.Free()) - nl
      ensures ok ==> file.tline == old(file.tline) + NewNeed(old(Buffer()[at - 1]), change)
      ensures ok ==> table.dot == Landed(old(Buffer()[at - 1]), change, at, old(table.dot))
      ensures Around(old(table.Lines()), table.Lines(), at - 1, at)
    {
      hide TempFile.Valid, Marked, Stored, Text, Grows, Rests, Pieces, Replaced, Need, Needs, Short;
      GrowsFirst(file.store);
      ghost var s, b, names := table.Lines(), Buffer(), table.names[..];
      assert Unmark(s[at - 1]) in file.store by { StoredAt(s, file.store, at - 1); }
      var line := file.GetLine(table.cur[at]);
      match change(line)
      case None =>
        assert b == b[..at - 1] + [b[at - 1]] + b[at..];
        AroundFirst(s, at - 1, at);
        ok, nl, found := true, 0, false;
      case Some(text) =>
        nl := 0;
        ghost var store := file.store;
        PiecesNeed(text);
        ok := ReplaceLine(at, text);
        if table.Lines() == s {
          AroundFirst(s, at - 1, at);
        } else {
          ReplacedAround(s, at, text, table.Lines(), table.dot, names, table.names[..], file.store);
        }
        if ok {
          StillStored(s, store, file.store);
          ReplacedTexts(s, at, text, table.Lines(), table.dot, names, table.names[..], file.store);
          nl := table.dot - at;
        }
        found := true;
    }

    /** A round of the loop: on to the line behind those that line a1 has become. */
    method SubstituteNext(a1: nat, end: nat, ghost front: seq<string>, ghost done: seq<string>, ghost todo: seq<string>,
                          ghost tail: seq<string>, change: string -> Option<string>)
      returns (ok: bool, a1': nat, end': nat, found: bool)
      requires Valid() && a1 <= end && Halfway(Buffer(), front, done, todo, tail, a1, end)
      modifies table`dot, table`dol, table`endcore, table.cur, table.names
      modifies file`iblock, file`oblock, file`ichanged, file`disk, file`mem, file`store, file`tline
      modifies file.ibuff, file.obuff
      ensures Valid() && Grows(old(file.store), file.store) && Marked(table.Lines()) <= old(Marked(table.Lines()))
      ensures todo != [] && found == change(todo[0]).Some?
      ensures ok ==> Halfway(Buffer(), front, done + Changed(todo[0], change), todo[1..], tail, a1', end')
      ensures table.Capacity() == old(table.Capacity())
      ensures ok == FitsLine(todo[0], change, old(table.Free()), old(file.tline))
      ensures ok ==> table.Free() == old(table.Free()) - (|Changed(todo[0], change)| - 1)
      ensures ok ==> file.tline == old(file.tline) + NewNeed(todo[0], change)
      ensures ok ==> table.dot == Landed(todo[0], change, a1, old(table.dot))
      ensures ok ==> a1' == a1 + |Changed(todo[0], change)| && 1 <= a1 && end' - end == a1' - a1 - 1 >= 0
      ensures 1 <= a1 <= |old(table.Lines())| && Around(old(table.Lines()), table.Lines(), a1 - 1, a1)
    {
      hide TempFile.Valid, Marked, Stored, Text, Grows, Changed, Halfway, NewNeed, Landed, FitsLine, Around;
      hide LineTable.Free, LineTable.Capacity;
      HalfwayTodo(Buffer(), front, done, todo, tail, a1, end);
      HalfwayStep(Buffer(), front, done, todo, tail, a1, end, Changed(todo[0], change));
      var nl;
      ok, nl, found := SubstituteLine(a1, change);
      a1', end' := a1 + nl + 1, end + nl;
    }

    /** The loop of substitute(): every addressed line becomes what `change` makes of it, which may be several
        lines, and all others stay.  False is an error on the way; without any change, there is one behind. */
    method Substitute(addr1: nat, addr2: nat, change: string -> Option<string>) returns (ok: bool, found: bool)
      requires Valid() && 1 <= addr1 <= addr2 <= table.dol
      modifies table`dot, table`dol, table`endcore, table.cur, table.names
      modifies file`iblock, file`oblock, file`ichanged, file`disk, file`mem, file`store, file`tline
      modifies file.ibuff, file.obuff
      ensures Valid() && Grows(old(file.store), file.store) && Marked(table.Lines()) <= old(Marked(table.Lines()))
      ensures ok ==> var b := old(Buffer());
        && Buffer() == b[..addr1 - 1] + Substituted(b[addr1 - 1..addr2], change) + b[addr2..]
        && found == AnyChange(b[addr1 - 1..addr2], change)
      ensures ok <==> FitsInstead(old(Buffer())[addr1 - 1..addr2], change, old(table.Free()), old(file.tline))
      ensures table.Capacity() == old(table.Capacity())
      ensures ok ==> table.dot == Landing(old(Buffer())[addr1 - 1..addr2], change, addr1, old(table.dot))
      ensures ok ==> file.tline == old(file.tline) + NewNeeds(old(Buffer())[addr1 - 1..addr2], change)
      ensures Around(old(table.Lines()), table.Lines(), addr1 - 1, addr2)
    {
      hide TempFile.Valid, Marked, Stored, Text, Grows, Substituted, Changed, AnyChange, Halfway, Accounted;
      hide FitsInstead, FitsLine, Landing, Landed, NewNeed, NewNeeds, Ahead, Around, LineTable.Free, LineTable.Capacity;
      GrowsFirst(file.store);
      file.InsideLimit();
      ghost var b, s, dot, free, tline := Buffer(), table.Lines(), table.dot, table.Free(), file.tline;
      ghost var front, done, todo, tail := b[..addr1 - 1], [], b[addr1 - 1..addr2], b[addr2..];
      ghost var all := todo;
      var a1: nat, end: nat := addr1, addr2;
      found := false;
      HalfwayStart(b, addr1, addr2);
      AccountedStart(todo, change);
      AheadFirst(all, change, addr1, dot, free, tline);
      AroundFirst(s, addr1 - 1, addr2);
      while a1 <= end
        modifies table`dot, table`dol, table`endcore, table.cur, table.names
        modifies file`iblock, file`oblock, file`ichanged, file`disk, file`mem, file`store, file`tline
        modifies file.ibuff, file.obuff
        invariant Valid() && Grows(old(file.store), file.store) && Marked(table.Lines()) <= old(Marked(table.Lines()))
        invariant Halfway(Buffer(), front, done, todo, tail, a1, end)
        invariant Accounted(all, done, todo, found, change)
        invariant table.Capacity() == old(table.Capacity())
        invariant Ahead(all, change, addr1, dot, free, tline, todo, a1, table.dot, table.Free(), file.tline)
        invariant Around(s, table.Lines(), addr1 - 1, addr2) && addr1 <= a1 && file.tline <= LIMIT
        decreases |todo|
      {
        ghost var store := file.store;
        HalfwayTodo(Buffer(), front, done, todo, tail, a1, end);
        AccountedNext(all, done, todo, found, change);
        AheadNext(all, change, addr1, dot, free, tline, todo, a1, table.dot, table.Free(), file.tline);
        ghost var s', at := table.Lines(), a1;
        HalfwayLength(Buffer(), front, done, todo, tail, a1, end);
        var hit;
        ok, a1, end, hit := SubstituteNext(a1, end, front, done, todo, tail, change);
        GrowsOn(old(file.store), store, file.store);
        AroundNext(s, s', addr1 - 1, addr2, table.Lines(), at);
        if !ok { return; }
        file.InsideLimit();
        found := found || hit;
        done, todo := done + Changed(todo[0], change), todo[1..];
      }
      HalfwayEnd(Buffer(), all, front, done, todo, tail, a1, end, found, change);
      AheadLast(all, change, addr1, dot, free, tline, a1, table.dot, table.Free(), file.tline);
      ok := true;
    }

    /** The k command. */
    method MarkLine(name: nat, at: nat)
      requires Valid() && name < 26 && 1 <= at <= table.dol
      modifies table.names
      ensures Valid() && table.names[..] == old(table.names[..])[name := Unmark(table.Lines()[at - 1])]
    {
      table.names[name] := table.cur[at] - table.cur[at] % 2;
    }

    // the commands with their addresses checked

    method AppendCommand(at: nat, texts: seq<string>) returns (ok: bool)
      requires Valid()
      modifies table`dot, table`dol, table`endcore, table.cur
      modifies file`iblock, file`oblock, file`ichanged, file`disk, file`mem, file`store, file`tline
      modifies file.ibuff, file.obuff
      ensures Valid() && Effect(Append(at, texts), old(View()), View(), ok)
      ensures Grows(old(file.store), file.store)
      ensures Marked(table.Lines()) <= old(Marked(table.Lines()))
    {
      hide TempFile.Valid, Marked, Stored, Text, Grows, Appended, Fits, Needs, Short;
      GrowsFirst(file.store);
      ghost var s := table.Lines();
      ok := false;
      if at <= table.dol {
        ok := AppendLines(at, texts);
        AppendedMarks(s, at, table.Lines(), table.dot, texts, file.store);
      }
    }

    method DeleteCommand(lo: nat, hi: nat) returns (ok: bool)
      requires Valid()
      modifies table`dot, table`dol, table.cur
      ensures Valid() && Effect(Delete(lo, hi), old(View()), View(), ok)
      ensures Grows(old(file.store), file.store)
      ensures Marked(table.Lines()) <= old(Marked(table.Lines()))
    {
      hide TempFile.Valid, Marked, Stored, Text, Grows;
      GrowsFirst(file.store);
      ok := 1 <= lo <= hi <= table.dol;
      if ok { DeleteLines(lo, hi); }
    }

    method MoveCommand(lo: nat, hi: nat, to: nat) returns (ok: bool)
      requires Valid()
      modifies table`dot, table.cur
      ensures Valid() && Effect(Move(lo, hi, to), old(View()), View(), ok)
      ensures Grows(old(file.store), file.store)
      ensures Marked(table.Lines()) <= old(Marked(table.Lines()))
    {
      hide TempFile.Valid, Marked, Stored, Text, Grows, Moved, Cleared;
      GrowsFirst(file.store);
      ok := false;
      if 1 <= lo <= hi <= table.dol && to <= table.dol { ok := MoveLines(lo, hi, to); }
    }

    method CopyCommand(lo: nat, hi: nat, to: nat) returns (ok: bool)
      requires Valid()
      modifies table`dot, table`dol, table`endcore, table.cur
      modifies file`iblock, file`oblock, file`ichanged, file`disk, file`mem, file`store, file`tline
      modifies file.ibuff, file.obuff
      ensures Valid() && Effect(Copy(lo, hi, to), old(View()), View(), ok)
      ensures Grows(old(file.store), file.store)
      ensures Marked(table.Lines()) <= old(Marked(table.Lines()))
    {
      hide TempFile.Valid, Marked, Stored, Text, Grows, Appended, Fits, Needs, Texts;
      GrowsFirst(file.store);
      ok := false;
      if 1 <= lo <= hi <= table.dol && to <= table.dol { ok := CopyLines(lo, hi, to); }
    }

    method JoinCommand(lo: nat, hi: nat) returns (ok: bool)
      requires Valid()
      modifies table`dot, table`dol, table.cur
      modifies file`iblock, file`oblock, file`ichanged, file`disk, file`mem, file`store, file`tline
      modifies file.ibuff, file.obuff
      ensures Valid() && Effect(Join(lo, hi), old(View()), View(), ok)
      ensures Grows(old(file.store), file.store)
      ensures Marked(table.Lines()) <= old(Marked(table.Lines()))
    {
      hide TempFile.Valid, Marked, Stored, Text, Grows, Concat, HoldsText, Need, Texts;
      GrowsFirst(file.store);
      ok := false;
      if 1 <= lo <= hi <= table.dol { ok := JoinLines(lo, hi); }
    }

    method SubstituteCommand(lo: nat, hi: nat, change: string -> Option<string>) returns (ok: bool)
      requires Valid()
      modifies table`dot, table`dol, table`endcore, table.cur, table.names
      modifies file`iblock, file`oblock, file`ichanged, file`disk, file`mem, file`store, file`tline
      modifies file.ibuff, file.obuff
      ensures Valid() && Effect(Edit.Substitute(lo, hi, change), old(View()), View(), ok)
      ensures Grows(old(file.store), file.store)
      ensures Marked(table.Lines()) <= old(Marked(table.Lines()))
    {
      hide TempFile.Valid, Marked, Stored, Text, Grows, FitsInstead, Substituted, Around, Landing, NewNeeds, Texts;
      GrowsFirst(file.store);
      ok := false;
      if 1 <= lo <= hi <= table.dol {
        var found;
        ok, found := Substitute(lo, hi, change);
      }
    }

    method MarkCommand(name: nat, at: nat) returns (ok: bool)
      requires Valid()
      modifies table.names
      ensures Valid() && Effect(Mark(name, at), old(View()), View(), ok)
      ensures Grows(old(file.store), file.store)
      ensures Marked(table.Lines()) <= old(Marked(table.Lines()))
    {
      hide TempFile.Valid, Marked, Stored, Text, Grows;
      GrowsFirst(file.store);
      ok := name < 26 && 1 <= at <= table.dol;
      if ok { MarkLine(name, at); }
    }

    /** One command; false is an error.  `sav`, savdot, savdol and savnames are not in the frame. */
    method Do(e: Edit) returns (ok: bool)
      requires Valid()
      modifies table`dot, table`dol, table`endcore, table.cur, table.names
      modifies file`iblock, file`oblock, file`ichanged, file`disk, file`mem, file`store, file`tline
      modifies file.ibuff, file.obuff
      ensures Valid() && Effect(e, old(View()), View(), ok) && Grows(old(file.store), file.store)
      ensures Marked(table.Lines()) <= old(Marked(table.Lines()))
    {
      hide TempFile.Valid, Marked, Stored, Effect;
      match e
      case Append(at, texts) => ok := AppendCommand(at, texts);
      case Delete(lo, hi) => ok := DeleteCommand(lo, hi);
      case Move(lo, hi, to) => ok := MoveCommand(lo, hi, to);
      case Copy(lo, hi, to) => ok := CopyCommand(lo, hi, to);
      case Join(lo, hi) => ok := JoinCommand(lo, hi);
      case Substitute(lo, hi, change) => ok := SubstituteCommand(lo, hi, change);
      case Mark(name, at) => ok := MarkCommand(name, at);
    }

    /** A command list; it stops at the first error. */
    method DoAll(list: seq<Edit>) returns (ok: bool)
      requires Valid()
      modifies table`dot, table`dol, table`endcore, table.cur, table.names
      modifies file`iblock, file`oblock, file`ichanged, file`disk, file`mem, file`store, file`tline
      modifies file.ibuff, file.obuff
      modifies this`log
      ensures Valid() && Grows(old(file.store), file.store)
      ensures DoneBy(list, old(View()), View(), ok)
      ensures log == old(log) + [Run(old(View()), list, View(), ok)]
      ensures Marked(table.Lines()) <= old(Marked(table.Lines()))
    {
      hide TempFile.Valid, Marked, Stored, Grows, Effect;
      GrowsFirst(file.store);
      ghost var v := View();
      assert list[..0] == [];
      for i := 0 to |list|
        modifies table`dot, table`dol, table`endcore, table.cur, table.names
        modifies file`iblock, file`oblock, file`ichanged, file`disk, file`mem, file`store, file`tline
        modifies file.ibuff, file.obuff, this`log
        invariant Valid() && Grows(old(file.store), file.store) && log == old(log)
        invariant Chain(list[..i], v, View())
        invariant Marked(table.Lines()) <= old(Marked(table.Lines()))
      {
        ghost var store, w := file.store, View();
        ok := Do(list[i]);
        GrowsOn(old(file.store), store, file.store);
        if !ok {
          log := log + [Run(v, list, View(), false)];
          return;
        }
        ChainMore(list, i, v, w, View());
      }
      assert list[..|list|] == list;
      log := log + [Run(v, list, View(), true)];
      ok := true;
    }

    /** save(), any commands, also failing ones, and undo(): the lines, their texts, dot and the marks
        are those of the save. */
    method EditsThenUndo(list: seq<Edit>) returns (ok: bool)
      requires Valid()
      modifies table`dot, table`dol, table`endcore, table.cur, table.names
      modifies file`iblock, file`oblock, file`ichanged, file`disk, file`mem, file`store, file`tline
      modifies file.ibuff, file.obuff
      modifies table`savdot, table`savdol, table.sav, table.savnames, this`log
      ensures Valid() && table.Lines() == old(table.Lines()) && Buffer() == old(Buffer())
      ensures table.dot == old(table.dot) && table.dol == old(table.dol)
      ensures table.names[..] == old(table.names[..])
    {
      hide TempFile.Valid, Stored, Grows, Marked;
      ghost var s := table.Lines();
      table.Save();
      ok := DoAll(list);
      table.Undo();
      StillStored(s, old(file.store), file.store);
    }
  }
}
