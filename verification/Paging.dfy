// Driving a cursor: DBQuery of query.js, and the `it` command of utils.js.
module Paging {
  import opened Arithmetic
  import opened Text

  datatype Outcome<+T> = Got(value: T) | Threw

  // The first limit documents; no limit is 0.
  function Limited<D>(limit: nat, docs: seq<D>): seq<D> {
    if limit > 0 && limit < |docs| then docs[..limit] else docs
  }

  function Skipped<D>(skip: nat, docs: seq<D>): seq<D> {
    if skip <= |docs| then docs[skip..] else []
  }

  class DBQuery<D> {
    // What the server has: the documents that match, in order. It may or may not apply the limit itself.
    const found: seq<D>
    const limit: nat
    const skip: nat
    const clips: bool
    // Whether a document has a true $err field.
    const isErr: D -> bool

    // The server's cursor is its position.
    var cursor: Option<nat>
    var cursorSeen: nat
    var numReturned: nat
    var arr: Option<seq<D>>

    function Served(): seq<D> {
      if clips then Limited(limit, Skipped(skip, found)) else Skipped(skip, found)
    }

    // All that the query is to return.
    function Total(): seq<D> {
      Limited(limit, Skipped(skip, found))
    }

    // The documents after the first `skip`, as many as the limit allows.
    lemma TotalIs()
      ensures |found| <= skip ==> Total() == []
      ensures |found| > skip && (limit == 0 || limit >= |found| - skip) ==> |Total()| == |found| - skip
      ensures |found| > skip && 0 < limit < |found| - skip ==> |Total()| == limit
      ensures forall i :: 0 <= i < |Total()| ==> skip + i < |found| && Total()[i] == found[skip + i]
    {
    }

    ghost predicate Valid()
      reads this
    {
      match cursor
      case None => numReturned == 0
      case Some(p) => p == cursorSeen <= |Served()| && numReturned <= p
    }

    // What is still to be returned.
    ghost function Rest(): seq<D>
      reads this
    {
      if cursor.None? then Total() else Skipped(cursor.value, Total())
    }

    // Nothing was returned yet, and all there is to return is an error document.
    ghost predicate Fails()
      reads this
    {
      numReturned == 0 && |Rest()| == 1 && isErr(Rest()[0])
    }

    constructor (found: seq<D>, limit: nat, skip: nat, clips: bool, isErr: D -> bool)
      ensures Valid() && cursor.None? && arr.None? && Rest() == Limited(limit, Skipped(skip, found))
      ensures this.found == found && this.limit == limit && this.skip == skip && this.isErr == isErr
    {
      this.found, this.limit, this.skip, this.clips, this.isErr := found, limit, skip, clips, isErr;
      cursor, cursorSeen, numReturned, arr := None, 0, 0, None;
    }

    // _exec
    method Exec()
      requires Valid()
      modifies this`cursor, this`cursorSeen
      ensures Valid() && cursor.Some? && Rest() == old(Rest())
      ensures old(cursor).Some? ==> cursor == old(cursor)
      ensures old(cursor).None? ==> cursor == Some(0)
    {
      if cursor.None? {
        cursor, cursorSeen := Some(0), 0;
      }
    }

    method HasNext() returns (more: bool)
      requires Valid()
      modifies this`cursor, this`cursorSeen
      ensures Valid() && cursor.Some? && Rest() == old(Rest())
      ensures old(cursor).Some? ==> cursor == old(cursor)
      ensures more <==> Rest() != []
    {
      Exec();
      if limit > 0 && cursorSeen >= limit {
        return false;
      }
      return cursor.value < |Served()|;
    }

    // next does not look at the limit; it only matters for a first document that is an error.
    method Next() returns (r: Outcome<D>)
      requires Valid()
      modifies this`cursor, this`cursorSeen, this`numReturned
      ensures Valid()
      ensures old(Rest()) != [] ==> Rest() == old(Rest()[1..])
      ensures old(Rest()) != [] ==> r == if old(Fails()) then Threw else Got(old(Rest()[0]))
      ensures old(Rest()) == [] ==> Rest() == [] && (clips || limit == 0 ==> r == Threw)
      ensures r.Got? ==> numReturned == old(numReturned) + 1
    {
      Exec();
      if !(cursor.value < |Served()|) {
        return Threw;
      }
      cursorSeen := cursorSeen + 1;
      var ret := Served()[cursor.value];
      cursor := Some(cursor.value + 1);
      if isErr(ret) && numReturned == 0 {
        var more := HasNext();
        if !more {
          return Threw;
        }
      }
      numReturned := numReturned + 1;
      return Got(ret);
    }

    method ToArray() returns (r: Outcome<seq<D>>)
      requires Valid()
      modifies this
      ensures Valid()
      ensures r == if old(arr).Some? then Got(old(arr).value) else if old(Fails()) then Threw else Got(old(Rest()))
      ensures r.Got? ==> arr == Some(r.value)
      ensures old(arr).None? ==> Rest() == []
    {
      if arr.Some? {
        return Got(arr.value);
      }
      ghost var docs, failing := Rest(), Fails();
      var a := [];
      var more := HasNext();
      while more
        invariant Valid() && arr.None?
        invariant more <==> Rest() != []
        invariant |a| <= |docs| && a == docs[..|a|] && Rest() == docs[|a|..]
        invariant a == [] ==> Fails() == failing
        invariant a != [] ==> numReturned > 0 && !failing
        decreases |docs| - |a|
      {
        var d := Next();
        if d.Threw? {
          return Threw;
        }
        a := a + [d.value];
        more := HasNext();
      }
      assert a == docs && !failing;
      arr := Some(a);
      return Got(a);
    }

    method ItCount() returns (r: Outcome<nat>)
      requires Valid()
      modifies this
      ensures Valid() && Rest() == []
      ensures r == if old(Fails()) then Threw else Got(|old(Rest())|)
    {
      var num := 0;
      var more := HasNext();
      while more
        invariant Valid()
        invariant more <==> Rest() != []
        invariant num + |Rest()| == |old(Rest())|
        invariant num == 0 ==> Fails() == old(Fails())
        invariant num > 0 ==> numReturned > 0 && !old(Fails())
        decreases |Rest()|
      {
        num := num + 1;
        var d := Next();
        if d.Threw? {
          return Threw;
        }
        more := HasNext();
      }
      return Got(num);
    }

    // countReturn; the server counts all that match.
    method CountReturn() returns (c: int)
      ensures c == |Total()| <==> skip <= |found|
      ensures skip > |found| ==> c == |found| - skip
    {
      c := |found|;
      if skip != 0 {
        c := c - skip;
      }
      if limit > 0 && limit < c {
        return limit;
      }
    }
  }

  // A line on the screen.
  datatype Line<+D> = Document(d: D) | More | NoCursor | Error

  function Documents<D>(docs: seq<D>): seq<Line<D>> {
    if docs == [] then [] else Documents(docs[..|docs| - 1]) + [Document(docs[|docs| - 1])]
  }

  lemma NoDocuments<D>(docs: seq<D>)
    ensures Documents(docs[..0]) == []
  {
  }

  lemma DocumentsSnoc<D>(docs: seq<D>, n: nat)
    requires n < |docs|
    ensures Documents(docs[..n + 1]) == Documents(docs[..n]) + [Document(docs[n])]
  {
    assert docs[..n + 1][..n] == docs[..n];
  }

  function Least(a: nat, b: nat): nat {
    if a < b then a else b
  }

  // The pages of docs, in order.
  function Pages<D>(docs: seq<D>, batch: nat): seq<Line<D>>
    requires batch > 0
  {
    if |docs| <= batch then Documents(docs) else Documents(docs[..batch]) + [More] + Pages(docs[batch..], batch)
  }

  // One page for nothing at all, else as few as hold n documents.
  function PageCount(n: nat, batch: nat): (c: nat)
    requires batch > 0
    ensures n == 0 ==> c == 1
    ensures n > 0 ==> (c - 1) * batch < n <= c * batch
  {
    if n == 0 then 1
    else
      var c := (n + batch - 1) / batch;
      assert n + batch - 1 == c * batch + (n + batch - 1) % batch by { Commute(c, batch); }
      OneMoreTime(c - 1, batch);
      c
  }

  // One page, and what comes after it.
  lemma PagesStep<D>(before: seq<Line<D>>, docs: seq<D>, batch: nat)
    requires batch > 0
    ensures var page := Least(batch, |docs|);
      var after := before + Documents(docs[..page]) + (if page < |docs| then [More] else []);
      if page < |docs| then
        && after + Pages(docs[page..], batch) == before + Pages(docs, batch)
        && PageCount(|docs|, batch) == 1 + PageCount(|docs[page..]|, batch)
      else
        after == before + Pages(docs, batch) && PageCount(|docs|, batch) == 1 && docs[page..] == []
  {
    if |docs| <= batch {
      assert docs[..|docs|] == docs;
      OnePage(|docs|, batch);
    } else {
      NextPage(|docs|, batch);
      hide Documents;
      var d := Documents(docs[..batch]);
      assert Pages(docs, batch) == d + [More] + Pages(docs[batch..], batch);
      Regroup(before, d, Pages(docs[batch..], batch));
    }
  }

  lemma Regroup<D>(a: seq<Line<D>>, b: seq<Line<D>>, c: seq<Line<D>>)
    ensures a + b + [More] + c == a + (b + [More] + c)
  {
  }

  lemma OnePage(n: nat, batch: nat)
    requires batch > 0 && n <= batch
    ensures PageCount(n, batch) == 1
  {
    if n > 0 {
      Quotient(batch, n + batch - 1, 1);
    }
  }

  lemma NextPage(n: nat, batch: nat)
    requires batch > 0 && n > batch
    ensures PageCount(n, batch) == 1 + PageCount(n - batch, batch)
  {
    var q := (n - 1) / batch;
    assert n - 1 == q * batch + (n - 1) % batch;
    Commute(q, batch);
    Commute(q + 1, batch);
    OneMoreTime(q, batch);
    Quotient(batch, n - 1, q);
    Quotient(batch, n + batch - 1, q + 1);
  }

  class Shell<!D> {
    // ___it___ and DBQuery.shellBatchSize
    var it: DBQuery?<D>
    var batch: nat
    var output: seq<Line<D>>

    constructor (batch: nat)
      ensures it == null && output == [] && this.batch == batch
    {
      it, output, this.batch := null, [], batch;
    }

    // One page; an exception is printed and leaves the saved cursor as it was.
    method ShellPrint(q: DBQuery<D>)
      requires q.Valid()
      modifies this`it, this`output, q
      ensures q.Valid()
      ensures var docs, page := old(q.Rest()), Least(batch, |old(q.Rest())|);
        if old(q.Fails()) && batch > 0 then
          output == old(output) + [Error] && it == old(it)
        else
          && output == old(output) + Documents(docs[..page]) + (if page < |docs| then [More] else [])
          && it == (if page < |docs| then q else null)
          && q.Rest() == docs[page..]
      ensures batch > 0 && !old(q.Fails()) ==> !q.Fails()
    {
      hide Documents, DBQuery.Valid, DBQuery.Rest;
      ghost var docs := q.Rest();
      ghost var failing := q.Fails();
      NoDocuments(docs);
      var n := 0;
      var more := q.HasNext();
      while more && n < batch
        invariant q.Valid() && (more <==> q.Rest() != []) && it == old(it)
        invariant n <= batch && n <= |docs| && q.Rest() == docs[n..]
        invariant output == old(output) + Documents(docs[..n])
        invariant n == 0 ==> q.Fails() == failing
        invariant n > 0 ==> q.numReturned > 0 && !failing
        decreases |q.Rest()|
      {
        var d := q.Next();
        if d.Threw? {
          output := output + [Error];
          return;
        }
        DocumentsSnoc(docs, n);
        output := output + [Document(d.value)];
        n := n + 1;
        more := q.HasNext();
      }
      more := q.HasNext();
      if more {
        output := output + [More];
        it := q;
      } else {
        it := null;
      }
    }

    // shellHelper.it
    method It()
      requires it != null ==> it.Valid()
      modifies this`it, this`output, it
      ensures old(it) == null ==> it == null && output == old(output) + [NoCursor]
      ensures old(it) != null ==> old(it).Valid()
      ensures old(it) != null && batch > 0 && !old(it.Fails()) ==>
        var docs, page := old(it.Rest()), Least(batch, |old(it.Rest())|);
        && output == old(output) + Documents(docs[..page]) + (if page < |docs| then [More] else [])
        && it == (if page < |docs| then old(it) else null)
        && old(it).Rest() == docs[page..] && !old(it).Fails()
    {
      if it == null {
        output := output + [NoCursor];
        return;
      }
      ShellPrint(it);
    }

    // A query printed, then `it` while there is more of it: the pages of what the query has left, each
    // document once, and no saved cursor at the end, whatever cursor was saved before. A query that fails
    // leaves that one saved.
    method PrintAll(q: DBQuery<D>) returns (pages: nat)
      requires q.Valid() && batch > 0 && (q.Fails() ==> it != q)
      modifies this`it, this`output, q
      ensures old(q.Fails()) ==> output == old(output) + [Error] && pages == 1 && it == old(it)
      ensures !old(q.Fails()) ==>
        && it == null
        && output == old(output) + Pages(old(q.Rest()), batch) && pages == PageCount(|old(q.Rest())|, batch)
        && q.Rest() == []
    {
      hide Documents, Pages, PageCount, DBQuery.Valid, DBQuery.Rest, DBQuery.Fails;
      ghost var docs, before := q.Rest(), output;
      ghost var failing := q.Fails();
      ShellPrint(q);
      PagesStep(before, docs, batch);
      pages := 1;
      while it == q
        invariant failing ==> it == old(it) && output == before + [Error] && pages == 1
        invariant it == q ==> q.Valid() && !q.Fails() && !failing
        invariant it == q ==>
          && output + Pages(q.Rest(), batch) == before + Pages(docs, batch)
          && pages + PageCount(|q.Rest()|, batch) == PageCount(|docs|, batch)
        invariant it != q && !failing ==>
          it == null && output == before + Pages(docs, batch) && pages == PageCount(|docs|, batch) && q.Rest() == []
        decreases it == q, |q.Rest()|
      {
        PagesStep(output, q.Rest(), batch);
        It();
        pages := pages + 1;
      }
    }
  }

  // The documents on the screen.
  function Shown<D>(lines: seq<Line<D>>): seq<D> {
    if lines == [] then []
    else Shown(lines[..|lines| - 1]) + if lines[|lines| - 1].Document? then [lines[|lines| - 1].d] else []
  }

  // How often the screen says that there is more.
  function Mores<D>(lines: seq<Line<D>>): nat {
    if lines == [] then 0
    else Mores(lines[..|lines| - 1]) + if lines[|lines| - 1].More? then 1 else 0
  }

  lemma {:induction false} LinesConcat<D>(a: seq<Line<D>>, b: seq<Line<D>>)
    ensures Shown(a + b) == Shown(a) + Shown(b)
    ensures Mores(a + b) == Mores(a) + Mores(b)
  {
    if b == [] {
      assert a + b == a;
    } else {
      var front, last := b[..|b| - 1], b[|b| - 1];
      LinesConcat(a, front);
      assert a + b == a + front + [last];
      assert (a + b)[..|a + b| - 1] == a + front;
    }
  }

  lemma {:induction false} DocumentsShown<D>(docs: seq<D>)
    ensures Shown(Documents(docs)) == docs && Mores(Documents(docs)) == 0 && |Documents(docs)| == |docs|
  {
    if docs != [] {
      var front, last := docs[..|docs| - 1], docs[|docs| - 1];
      DocumentsShown(front);
      assert docs == front + [last];
      assert Documents(docs)[..|Documents(docs)| - 1] == Documents(front);
    }
  }

  lemma PageShows<D>(page: seq<D>, rest: seq<Line<D>>)
    ensures Shown(Documents(page) + [More] + rest) == page + Shown(rest)
    ensures Mores(Documents(page) + [More] + rest) == 1 + Mores(rest)
  {
    hide Documents;
    var lines := Documents(page);
    DocumentsShown(page);
    JustMore<D>();
    hide Shown, Mores;
    LinesConcat(lines, [More]);
    LinesConcat(lines + [More], rest);
    assert page + [] == page;
  }

  lemma JustMore<D>()
    ensures Shown<D>([More]) == [] && Mores<D>([More]) == 1
  {
    var lines: seq<Line<D>> := [More];
    assert lines[..0] == [];
    assert Shown<D>([]) == [] && Mores<D>([]) == 0;
  }

  // The pages show every document once and in order, with a line between one page and the next.
  lemma {:induction false} PagesShow<D>(docs: seq<D>, batch: nat)
    requires batch > 0
    ensures Shown(Pages(docs, batch)) == docs
    ensures Mores(Pages(docs, batch)) == PageCount(|docs|, batch) - 1
    decreases |docs|
  {
    if |docs| <= batch {
      DocumentsShown(docs);
      OnePage(|docs|, batch);
    } else {
      PagesShow(docs[batch..], batch);
      NextPage(|docs|, batch);
      PageShows(docs[..batch], Pages(docs[batch..], batch));
      hide Documents, Shown, Mores, PageCount;
      assert Pages(docs, batch) == Documents(docs[..batch]) + [More] + Pages(docs[batch..], batch);
      assert docs[..batch] + docs[batch..] == docs;
    }
  }
}
