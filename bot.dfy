/** main.py: one pass of `check_and_send_discounts` over the scraped deals.
    Each deal whose link is not yet stored is announced to the channel and,
    on a manual run, to the requesting chat; every deal is then saved with
    INSERT OR IGNORE. The Telegram calls are modelled as the list of
    messages attempted, and a send that raises is an attempt index in
    `failing`: it is caught, so it only removes that message from what is
    delivered. */
module Bot {
  import opened Maybe
  import opened Text
  import opened Sizes
  import opened Database
  import opened Deals

  /** The heading of the size line: singular for exactly one size. */
  function SizeLabel(sizes: seq<string>): (r: string)
    ensures r == "Размер" <==> |sizes| == 1
    ensures r == "Размеры" <==> |sizes| != 1
  {
    if |sizes| == 1 then "Размер" else "Размеры"
  }

  const Header: string := "👀 <b>Смотри, что нашел</b>"

  /** The five caption lines, given the formatted sizes. */
  function CaptionLines(d: Deal, sizesText: string): seq<string> {
    [ Header,
      "👟 " + d.title,
      "💰 <b>" + d.price + "</b> (было " + Show(d.oldPrice) + ")",
      "🏷 Скидка: " + d.discount,
      "📏 " + SizeLabel(d.sizes) + ": EU " + sizesText ]
  }

  /** The HTML caption of a deal: the lines joined by newlines. */
  function Caption(d: Deal): string {
    Join(CaptionLines(d, Formatted(d.sizes)), "\n")
  }

  /** The fixed parts of the caption hold no newline. */
  lemma CaptionLinesOneLine(d: Deal, sizesText: string)
    requires '\n' !in d.title && '\n' !in d.price && '\n' !in Show(d.oldPrice)
    requires '\n' !in d.discount && '\n' !in sizesText
    ensures forall i :: 0 <= i < |CaptionLines(d, sizesText)| ==> '\n' !in CaptionLines(d, sizesText)[i]
  {
    assert '\n' !in Header && '\n' !in "👟 " && '\n' !in "💰 <b>" && '\n' !in "</b> (было " && '\n' !in ")";
    assert '\n' !in "🏷 Скидка: " && '\n' !in "📏 " && '\n' !in ": EU " && '\n' !in SizeLabel(d.sizes);
  }

  /** When no field holds a newline, the caption reads back as exactly five
      lines: header, title, price with the old price, discount, sizes. */
  lemma CaptionFiveLines(d: Deal)
    requires '\n' !in d.title && '\n' !in d.price && '\n' !in Show(d.oldPrice)
    requires '\n' !in d.discount && '\n' !in Formatted(d.sizes)
    ensures Split(Caption(d), '\n') == [
      "👀 <b>Смотри, что нашел</b>",
      "👟 " + d.title,
      "💰 <b>" + d.price + "</b> (было " + Show(d.oldPrice) + ")",
      "🏷 Скидка: " + d.discount,
      "📏 " + SizeLabel(d.sizes) + ": EU " + Formatted(d.sizes)]
  {
    CaptionLinesOneLine(d, Formatted(d.sizes));
    SplitJoin(CaptionLines(d, Formatted(d.sizes)), '\n');
  }

  /** Where a message goes: the configured channel or the chat that asked. */
  datatype Target = Channel(name: string) | Chat(id: int)

  /** The single inline button under every message. */
  datatype Button = Button(text: string, url: string)

  /** A `send_photo` or a `send_message` call, both in HTML mode. */
  datatype Message =
    | Photo(to: Target, photo: string, caption: string, button: Button)
    | Plain(to: Target, caption: string, button: Button)
  {
    function Caption(): string {
      match this
      case Photo(_, _, c, _) => c
      case Plain(_, c, _) => c
    }
    function Btn(): Button {
      match this
      case Photo(_, _, _, b) => b
      case Plain(_, _, b) => b
    }
    function To(): Target {
      match this
      case Photo(t, _, _, _) => t
      case Plain(t, _, _) => t
    }
  }

  /** The message for one target: a photo exactly when the image URL is
      truthy; the button always opens the raw deal link. */
  function Msg(to: Target, d: Deal): (m: Message)
    ensures m.Photo? <==> Truthy(d.imageUrl)
    ensures m.Photo? ==> m.photo == d.imageUrl.value
    ensures m.To() == to && m.Caption() == Caption(d)
    ensures m.Btn() == Button("Посмотреть 🛒", d.link)
  {
    var b := Button("Посмотреть 🛒", d.link);
    if Truthy(d.imageUrl) then Photo(to, d.imageUrl.value, Caption(d), b)
    else Plain(to, Caption(d), b)
  }

  /** The messages one new deal causes: the channel first when the channel
      id is non-empty, then the chat when one is given. */
  function DealMessages(d: Deal, channelId: string, chatId: Option<int>): (r: seq<Message>)
    ensures |r| == (if channelId != "" then 1 else 0) + (if TruthyInt(chatId) then 1 else 0)
    ensures forall k :: 0 <= k < |r| ==> r[k] == Msg(r[k].To(), d)
    ensures channelId != "" ==> r[0] == Msg(Channel(channelId), d)
    ensures TruthyInt(chatId) ==> r[|r| - 1] == Msg(Chat(chatId.value), d)
  {
    (if channelId != "" then [Msg(Channel(channelId), d)] else [])
    + (if TruthyInt(chatId) then [Msg(Chat(chatId.value), d)] else [])
  }

  function AllMessages(posted: seq<Deal>, channelId: string, chatId: Option<int>): seq<Message> {
    if posted == [] then []
    else AllMessages(posted[..|posted| - 1], channelId, chatId) + DealMessages(posted[|posted| - 1], channelId, chatId)
  }

  /** The attempts whose index is not in `failing`, in order. */
  function Surviving(attempts: seq<Message>, failing: set<nat>): seq<Message> {
    if attempts == [] then []
    else
      var n := |attempts| - 1;
      Surviving(attempts[..n], failing) + (if n in failing then [] else [attempts[n]])
  }

  function RowOf(d: Deal): Row {
    Row(d.title, d.price, d.oldPrice)
  }

  /** The store after a pass and the deals announced in it. */
  datatype Outcome = Outcome(rows: map<string, Row>, posted: seq<Deal>)

  /** The pass over `deals`, deal by deal: post when the link is absent from
      the store at that moment, then insert-or-ignore the deal. */
  function Ingest(rows: map<string, Row>, deals: seq<Deal>): Outcome {
    if deals == [] then Outcome(rows, [])
    else
      var o := Ingest(rows, deals[..|deals| - 1]);
      var d := deals[|deals| - 1];
      var isNew := d.link !in o.rows;
      Outcome(InsertOrIgnore(o.rows, d.link, RowOf(d)), o.posted + if isNew then [d] else [])
  }

  /** Afterwards the store holds exactly the links it held before and the
      links of every processed deal, posted or not. */
  lemma {:induction false} IngestKeys(rows: map<string, Row>, deals: seq<Deal>)
    ensures forall l :: l in Ingest(rows, deals).rows <==> l in rows || exists i :: 0 <= i < |deals| && deals[i].link == l
  {
    if deals != [] {
      var n := |deals| - 1;
      IngestKeys(rows, deals[..n]);
      forall l ensures l in Ingest(rows, deals).rows <==> l in rows || exists i :: 0 <= i < |deals| && deals[i].link == l {
        if exists i :: 0 <= i < |deals| && deals[i].link == l {
          var i :| 0 <= i < |deals| && deals[i].link == l;
          if i < n { assert deals[..n][i] == deals[i]; }
        }
        if exists i :: 0 <= i < n && deals[..n][i].link == l {
          var i :| 0 <= i < n && deals[..n][i].link == l;
          assert deals[i].link == l;
        }
      }
    }
  }

  /** Rows stored before the pass keep their title, price and old price. */
  lemma {:induction false} IngestKeepsRows(rows: map<string, Row>, deals: seq<Deal>)
    ensures forall l :: l in rows ==> l in Ingest(rows, deals).rows && Ingest(rows, deals).rows[l] == rows[l]
  {
    if deals != [] {
      IngestKeepsRows(rows, deals[..|deals| - 1]);
    }
  }

  /** Every announced deal had a link that was not stored before the pass. */
  lemma {:induction false} IngestPostsFresh(rows: map<string, Row>, deals: seq<Deal>)
    ensures forall k :: 0 <= k < |Ingest(rows, deals).posted| ==> Ingest(rows, deals).posted[k].link !in rows
  {
    if deals != [] {
      var n := |deals| - 1;
      IngestPostsFresh(rows, deals[..n]);
      IngestKeepsRows(rows, deals[..n]);
    }
  }

  /** The deal at position `i` is announced exactly when its link was not
      stored before the pass and no earlier deal in the batch has it. */
  lemma IngestPostsFirstOccurrence(rows: map<string, Row>, deals: seq<Deal>, i: nat)
    requires i < |deals|
    ensures |Ingest(rows, deals[..i + 1]).posted| == |Ingest(rows, deals[..i]).posted| + 1
            <==> deals[i].link !in rows && forall j :: 0 <= j < i ==> deals[j].link != deals[i].link
    ensures |Ingest(rows, deals[..i + 1]).posted| <= |Ingest(rows, deals[..i]).posted| + 1
  {
    assert deals[..i + 1][..i] == deals[..i];
    IngestKeys(rows, deals[..i]);
    forall j | 0 <= j < i ensures deals[..i][j] == deals[j] { }
  }

  /** No link is announced twice in one pass, even when the batch repeats
      it. */
  lemma {:induction false} IngestPostsDistinct(rows: map<string, Row>, deals: seq<Deal>)
    ensures forall k1, k2 :: 0 <= k1 < k2 < |Ingest(rows, deals).posted| ==>
      Ingest(rows, deals).posted[k1].link != Ingest(rows, deals).posted[k2].link
  {
    if deals != [] {
      var n := |deals| - 1;
      var o := Ingest(rows, deals[..n]);
      IngestPostsDistinct(rows, deals[..n]);
      IngestPostsStored(rows, deals[..n]);
    }
  }

  /** Every announced deal is one of the batch. */
  lemma {:induction false} IngestPostsFromBatch(rows: map<string, Row>, deals: seq<Deal>)
    ensures forall k :: 0 <= k < |Ingest(rows, deals).posted| ==> Ingest(rows, deals).posted[k] in deals
  {
    if deals != [] {
      var n := |deals| - 1;
      IngestPostsFromBatch(rows, deals[..n]);
      var o := Ingest(rows, deals[..n]);
      forall k | 0 <= k < |o.posted| ensures o.posted[k] in deals {
        assert o.posted[k] in deals[..n];
      }
    }
  }

  /** Every announced link is in the store after the pass. */
  lemma {:induction false} IngestPostsStored(rows: map<string, Row>, deals: seq<Deal>)
    ensures forall k :: 0 <= k < |Ingest(rows, deals).posted| ==> Ingest(rows, deals).posted[k].link in Ingest(rows, deals).rows
  {
    if deals != [] {
      var n := |deals| - 1;
      IngestPostsStored(rows, deals[..n]);
    }
  }

  /** Every deal with a link new to the store is announced: the returned
      `k` is the position of its announcement. */
  lemma {:induction false} IngestPostsNewLink(rows: map<string, Row>, deals: seq<Deal>, i: nat) returns (k: nat)
    requires i < |deals| && deals[i].link !in rows
    ensures k < |Ingest(rows, deals).posted| && Ingest(rows, deals).posted[k].link == deals[i].link
  {
    var n := |deals| - 1;
    var o := Ingest(rows, deals[..n]);
    var p := Ingest(rows, deals).posted;
    assert p[..|o.posted|] == o.posted;
    if i < n {
      assert deals[..n][i] == deals[i];
      k := IngestPostsNewLink(rows, deals[..n], i);
    } else if deals[n].link !in o.rows {
      k := |o.posted|;
    } else {
      IngestKeys(rows, deals[..n]);
      var j :| 0 <= j < n && deals[..n][j].link == deals[n].link;
      k := IngestPostsNewLink(rows, deals[..n], j);
    }
  }

  /** Two passes over `a` and then `b` have the effect of one pass over
      `a + b`. */
  lemma IngestSnoc(rows: map<string, Row>, deals: seq<Deal>, d: Deal)
    ensures var o := Ingest(rows, deals);
      Ingest(rows, deals + [d])
        == Outcome(InsertOrIgnore(o.rows, d.link, RowOf(d)), o.posted + if d.link in o.rows then [] else [d])
  {
    assert (deals + [d])[..|deals|] == deals;
  }

  lemma {:induction false} IngestConcat(rows: map<string, Row>, a: seq<Deal>, b: seq<Deal>)
    ensures Ingest(rows, a + b).rows == Ingest(Ingest(rows, a).rows, b).rows
    ensures Ingest(rows, a + b).posted == Ingest(rows, a).posted + Ingest(Ingest(rows, a).rows, b).posted
  {
    if b == [] {
      assert a + b == a;
    } else {
      var n := |b| - 1;
      var x := b[n];
      assert b == b[..n] + [x];
      assert a + b == (a + b[..n]) + [x];
      IngestConcat(rows, a, b[..n]);
      IngestSnoc(rows, a + b[..n], x);
      IngestSnoc(Ingest(rows, a).rows, b[..n], x);
      var pa := Ingest(rows, a).posted;
      var pb := Ingest(Ingest(rows, a).rows, b[..n]).posted;
      var added: seq<Deal> := if x.link in Ingest(rows, a + b[..n]).rows then [] else [x];
      assert (pa + pb) + added == pa + (pb + added);
    }
  }

  /** A link stored by one pass is never announced by any later pass. */
  lemma NeverRepostedLater(rows: map<string, Row>, earlier: seq<Deal>, later: seq<Deal>)
    ensures forall k, i :: 0 <= k < |Ingest(Ingest(rows, earlier).rows, later).posted| && 0 <= i < |earlier| ==>
      Ingest(Ingest(rows, earlier).rows, later).posted[k].link != earlier[i].link
  {
    IngestKeys(rows, earlier);
    IngestPostsFresh(Ingest(rows, earlier).rows, later);
  }

  /** A batch whose links are all stored already announces nothing and
      changes no row. */
  lemma {:induction false} IngestAllStored(rows: map<string, Row>, deals: seq<Deal>)
    requires forall i :: 0 <= i < |deals| ==> deals[i].link in rows
    ensures Ingest(rows, deals) == Outcome(rows, [])
  {
    if deals != [] {
      IngestAllStored(rows, deals[..|deals| - 1]);
    }
  }

  /** Running the same batch again announces nothing and changes no row. */
  lemma Rerun(rows: map<string, Row>, deals: seq<Deal>)
    ensures Ingest(Ingest(rows, deals).rows, deals) == Outcome(Ingest(rows, deals).rows, [])
  {
    IngestKeys(rows, deals);
    IngestAllStored(Ingest(rows, deals).rows, deals);
  }

  /** One attempted send: the message is recorded, and delivered unless its
      attempt raises. */
  method Send(m: Message, attempts: seq<Message>, delivered: seq<Message>, failing: set<nat>)
    returns (attempts': seq<Message>, delivered': seq<Message>)
    requires delivered == Surviving(attempts, failing)
    ensures attempts' == attempts + [m]
    ensures delivered' == Surviving(attempts', failing)
  {
    attempts' := attempts + [m];
    assert attempts'[..|attempts|] == attempts;
    if |attempts| in failing {
      delivered' := delivered;
    } else {
      delivered' := delivered + [m];
    }
  }

  /** The sends for one new deal (main.py:83-122): its caption and button
      are built once, then the channel and the chat are tried in turn. */
  method Announce(deal: Deal, channelId: string, chatId: Option<int>,
                  attempts: seq<Message>, delivered: seq<Message>, failing: set<nat>)
    returns (attempts': seq<Message>, delivered': seq<Message>)
    requires delivered == Surviving(attempts, failing)
    ensures attempts' == attempts + DealMessages(deal, channelId, chatId)
    ensures delivered' == Surviving(attempts', failing)
  {
    var sizesText := FormatSizes(deal.sizes);
    var caption := Join(CaptionLines(deal, sizesText), "\n");
    var button := Button("Посмотреть 🛒", deal.link);
    attempts', delivered' := attempts, delivered;
    if channelId != "" {
      var m := if Truthy(deal.imageUrl) then Photo(Channel(channelId), deal.imageUrl.value, caption, button)
               else Plain(Channel(channelId), caption, button);
      assert m == Msg(Channel(channelId), deal);
      attempts', delivered' := Send(m, attempts', delivered', failing);
    }
    if TruthyInt(chatId) {
      var m := if Truthy(deal.imageUrl) then Photo(Chat(chatId.value), deal.imageUrl.value, caption, button)
               else Plain(Chat(chatId.value), caption, button);
      assert m == Msg(Chat(chatId.value), deal);
      attempts', delivered' := Send(m, attempts', delivered', failing);
    }
  }

  /** One step of the pass: the deal at position `i` is announced exactly
      when its link is absent from the store as the earlier deals left it. */
  lemma IngestStep(rows: map<string, Row>, deals: seq<Deal>, i: nat)
    requires i < |deals|
    ensures var o := Ingest(rows, deals[..i]);
      Ingest(rows, deals[..i + 1]) ==
        Outcome(InsertOrIgnore(o.rows, deals[i].link, RowOf(deals[i])), o.posted + if deals[i].link in o.rows then [] else [deals[i]])
  {
    assert deals[..i + 1][..i] == deals[..i];
  }

  lemma AllMessagesSnoc(posted: seq<Deal>, d: Deal, channelId: string, chatId: Option<int>)
    ensures AllMessages(posted + [d], channelId, chatId) == AllMessages(posted, channelId, chatId) + DealMessages(d, channelId, chatId)
  {
    assert (posted + [d])[..|posted|] == posted;
  }

  /** What the loop of the pass needs about one more deal: the store it
      leaves, one more announcement when the link was absent, and the
      messages of that announcement. */
  lemma IngestNext(rows0: map<string, Row>, deals: seq<Deal>, i: nat, channelId: string, chatId: Option<int>)
    requires i < |deals|
    ensures var o := Ingest(rows0, deals[..i]);
      var o' := Ingest(rows0, deals[..i + 1]);
      var isNew := deals[i].link !in o.rows;
      && o'.rows == InsertOrIgnore(o.rows, deals[i].link, RowOf(deals[i]))
      && |o'.posted| == |o.posted| + (if isNew then 1 else 0)
      && AllMessages(o'.posted, channelId, chatId)
         == AllMessages(o.posted, channelId, chatId) + (if isNew then DealMessages(deals[i], channelId, chatId) else [])
  {
    IngestStep(rows0, deals, i);
    var o := Ingest(rows0, deals[..i]);
    if deals[i].link !in o.rows {
      AllMessagesSnoc(o.posted, deals[i], channelId, chatId);
    } else {
      assert o.posted + [] == o.posted;
      assert AllMessages(o.posted, channelId, chatId) + [] == AllMessages(o.posted, channelId, chatId);
    }
  }

  /** One turn of the loop of `check_and_send_discounts`: announce the deal
      when its link is not stored yet, then save it. */
  method ProcessDeal(store: DealStore, deal: Deal, channelId: string, chatId: Option<int>, failing: set<nat>,
                     count: nat, attempts: seq<Message>, delivered: seq<Message>)
    returns (count': nat, attempts': seq<Message>, delivered': seq<Message>)
    requires store.Valid() && store.tableExists
    requires delivered == Surviving(attempts, failing)
    modifies store
    ensures store.Valid() && store.tableExists
    ensures store.rows == InsertOrIgnore(old(store.rows), deal.link, RowOf(deal))
    ensures var isNew := deal.link !in old(store.rows);
      && count' == count + (if isNew then 1 else 0)
      && attempts' == attempts + (if isNew then DealMessages(deal, channelId, chatId) else [])
    ensures delivered' == Surviving(attempts', failing)
  {
    count', attempts', delivered' := count, attempts, delivered;
    var stored := store.DealExists(deal.link);
    if !stored {
      attempts', delivered' := Announce(deal, channelId, chatId, attempts, delivered, failing);
      count' := count + 1;
    } else {
      assert attempts + [] == attempts;
    }
    store.SaveDeal(deal.title, deal.price, deal.oldPrice, deal.link);
  }

  /** `check_and_send_discounts(chat_id)` over the scraped `deals`, with
      CHANNEL_ID passed as `channelId`. It returns the number of announced
      deals, the messages attempted and those delivered. */
  method CheckAndSendDiscounts(store: DealStore, deals: seq<Deal>, channelId: string, chatId: Option<int>, failing: set<nat>)
    returns (count: nat, attempts: seq<Message>, delivered: seq<Message>)
    requires store.Valid() && store.tableExists
    modifies store
    ensures store.Valid() && store.tableExists
    ensures store.rows == Ingest(old(store.rows), deals).rows
    ensures count == |Ingest(old(store.rows), deals).posted|
    ensures attempts == AllMessages(Ingest(old(store.rows), deals).posted, channelId, chatId)
    ensures delivered == Surviving(attempts, failing)
  {
    ghost var rows0 := store.rows;
    count, attempts, delivered := 0, [], [];
    var i := 0;
    while i < |deals|
      invariant 0 <= i <= |deals|
      invariant store.Valid() && store.tableExists
      invariant store.rows == Ingest(rows0, deals[..i]).rows
      invariant count == |Ingest(rows0, deals[..i]).posted|
      invariant attempts == AllMessages(Ingest(rows0, deals[..i]).posted, channelId, chatId)
      invariant delivered == Surviving(attempts, failing)
    {
      IngestNext(rows0, deals, i, channelId, chatId);
      count, attempts, delivered := ProcessDeal(store, deals[i], channelId, chatId, failing, count, attempts, delivered);
      i := i + 1;
    }
    assert deals[..i] == deals;
  }
}
