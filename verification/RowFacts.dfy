/** Facts about the single row changes of `Tables`. */
module RowFacts {
  import opened Ids
  import opened Tables

  // ----- the (post, account) keys of variants -----

  ghost function Keys(rows: seq<Variant>): (keys: seq<(Id, Id)>)
    ensures |keys| == |rows|
    ensures forall i :: 0 <= i < |rows| ==> keys[i] == (rows[i].post, rows[i].account)
  {
    seq(|rows|, i requires 0 <= i < |rows| => (rows[i].post, rows[i].account))
  }

  lemma KeysCons(head: Variant, tail: seq<Variant>)
    ensures Keys([head] + tail) == [(head.post, head.account)] + Keys(tail)
  {
  }

  lemma KeysMembers(rows: seq<Variant>)
    ensures forall k :: k in Keys(rows) <==> exists v :: v in rows && (v.post, v.account) == k
  {
  }

  lemma DistinctKeysHead(rows: seq<Variant>)
    requires rows != []
    ensures Distinct(Keys(rows)) <==> Distinct(Keys(rows[1..])) && (rows[0].post, rows[0].account) !in Keys(rows[1..])
  {
  }

  // ----- changes to one table -----

  lemma {:induction false} AttachFacts(attachments: map<(Id, Id), nat>, post: Id, media: seq<Id>)
    ensures forall k :: k in Attach(attachments, post, media) <==> k in attachments || (k.0 == post && k.1 in media)
    ensures forall k :: k in attachments && k.0 != post ==> Attach(attachments, post, media)[k] == attachments[k]
    ensures Distinct(media) ==>
      forall i :: 0 <= i < |media| ==>
        (post, media[i]) in Attach(attachments, post, media) && Attach(attachments, post, media)[(post, media[i])] == i
  {
    if media != [] {
      var front := media[..|media| - 1];
      AttachFacts(attachments, post, front);
      assert media == front + [media[|media| - 1]];
      assert forall id :: id in media <==> id in front || id == media[|media| - 1];
    }
  }

  lemma {:induction false} UpsertMembers(rows: seq<Variant>, post: Id, account: Id, content: string, media: seq<Id>)
    ensures forall v :: v in Upsert(rows, post, account, content, media) ==> v in rows || v == Variant(post, account, content, media)
  {
    if rows != [] && !(rows[0].post == post && rows[0].account == account) {
      UpsertMembers(rows[1..], post, account, content, media);
    }
  }

  /** An upsert adds a row only when the post has no variant for the account yet. */
  lemma {:induction false} UpsertKeys(rows: seq<Variant>, post: Id, account: Id, content: string, media: seq<Id>)
    ensures Keys(Upsert(rows, post, account, content, media)) ==
            if (post, account) in Keys(rows) then Keys(rows) else Keys(rows) + [(post, account)]
  {
    if rows != [] {
      var rest := Upsert(rows[1..], post, account, content, media);
      KeysCons(rows[0], rows[1..]);
      assert rows == [rows[0]] + rows[1..];
      if rows[0].post == post && rows[0].account == account {
        KeysCons(rows[0].(content := content, media := media), rows[1..]);
      } else {
        UpsertKeys(rows[1..], post, account, content, media);
        KeysCons(rows[0], rest);
      }
    }
  }

  lemma {:induction false} PruneFacts(rows: seq<Variant>, post: Id, accounts: seq<Id>)
    ensures forall v :: v in PruneVariants(rows, post, accounts) <==> v in rows && (v.post == post ==> v.account in accounts)
    ensures Distinct(Keys(rows)) ==> Distinct(Keys(PruneVariants(rows, post, accounts)))
  {
    if rows != [] {
      PruneFacts(rows[1..], post, accounts);
      var tail := PruneVariants(rows[1..], post, accounts);
      assert rows == [rows[0]] + rows[1..];
      DistinctKeysHead(rows);
      if !(rows[0].post == post && rows[0].account !in accounts) {
        KeysMembers(tail);
        KeysMembers(rows[1..]);
        assert PruneVariants(rows, post, accounts)[1..] == tail;
        DistinctKeysHead(PruneVariants(rows, post, accounts));
      }
    }
  }

  lemma {:induction false} StripFacts(db: Db, rows: seq<Variant>, workspace: Id, id: Id)
    ensures |StripMedia(db, rows, workspace, id)| == |rows|
    ensures forall i :: 0 <= i < |rows| ==>
      StripMedia(db, rows, workspace, id)[i] ==
        if InWorkspace(db, rows[i].post, workspace) then rows[i].(media := Without(rows[i].media, id)) else rows[i]
  {
    if rows != [] {
      StripFacts(db, rows[1..], workspace, id);
      assert forall i :: 1 <= i < |rows| ==> rows[i] == rows[1..][i - 1];
    }
  }

  lemma {:induction false} WithoutFacts(media: seq<Id>, id: Id)
    ensures forall m :: m in Without(media, id) <==> m in media && m != id
    ensures id !in media ==> Without(media, id) == media
  {
    if media != [] {
      WithoutFacts(media[1..], id);
      assert media == [media[0]] + media[1..];
    }
  }
}
