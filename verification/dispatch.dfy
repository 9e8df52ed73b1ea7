/** The `/send-email` pipeline: compute the validity, insert the proposal as
    "Pendente", compose the markup, render it, send it, and finalise the
    record as "Enviado" or "Falha". The clock, the store engine, the PDF
    renderer and the mail service are parameters. */
module Dispatch {
  import opened Optional
  import opened CivilDate
  import opened Validity
  import opened Proposals
  import opened Markup
  import opened JsNumber

  /** The body of a `/send-email` request, with `prazo` already an integer. */
  datatype Submission = Submission(
    to: string,
    subject: string,
    cliente: string,
    empresa: string,
    valor: string,
    descricao: string,
    prazo: int)

  /** How a call into the PDF renderer or the mail service ended. */
  datatype Outcome = Succeeded | Failed

  /** A call the pipeline makes into the renderer or the mail service. */
  datatype Call = Render(markup: string) | Send(to: string, subject: string, html: string)

  /** The pipeline's answer; the id is the inserted record's, kept for the model. */
  datatype Reply = SaveFailed(error: InsertError) | EmailSent(id: int) | EmailFailed(id: int)

  /** The store after the insert and at the end, the reply, and the calls made. */
  datatype Run = Run(afterInsert: Store, store: Store, reply: Reply, calls: seq<Call>)

  datatype Delivery = Delivery(status: Status, calls: seq<Call>)

  /** The `try` block: render, send only if rendering succeeded, and the status
      to finalise with. */
  function Deliver(html: string, to: string, subject: string, render: Outcome, send: Outcome): (d: Delivery)
    ensures d.status == Enviado <==> render == Succeeded && send == Succeeded
    ensures d.status == Enviado || d.status == Falha
    ensures 1 <= |d.calls| <= 2 && d.calls[0] == Render(html)
    ensures |d.calls| == 2 <==> render == Succeeded
    ensures |d.calls| == 2 ==> d.calls[1] == Send(to, subject, html)
  {
    match (render, send)
    case (Failed, _) => Delivery(Falha, [Render(html)])
    case (Succeeded, Failed) => Delivery(Falha, [Render(html), Send(to, subject, html)])
    case (Succeeded, Succeeded) => Delivery(Enviado, [Render(html), Send(to, subject, html)])
  }

  /** The row the INSERT writes: the submitted fields in their columns, the
      recipient `to` in `email`, the rendered validity, the store's clock in
      `data_envio`, and the status "Pendente". */
  function PendingRecord(sub: Submission, validade: string, now: int): (p: Proposal)
    ensures && p.cliente == sub.cliente && p.empresa == sub.empresa
            && p.valor == sub.valor && p.descricao == sub.descricao
    ensures p.email == sub.to && p.validade == validade
    ensures p.dataEnvio == now && p.status == Pendente
  {
    Proposal(sub.cliente, sub.empresa, sub.valor, sub.descricao, sub.to, validade, now, Pendente)
  }

  /** What follows a successful insert of record `id`: compose the markup,
      deliver it, and finalise the record with the outcome. JavaScript holds
      `this.lastID` as a Number, so the finalising UPDATE uses `ToNumber(id)`
      and the links carry the digits Number::toString writes for it,
      `PrintedInteger(ToNumber(id))`. Both are `id` itself up to 2^53. */
  function Finish(t: Template, inserted: Store, id: nat, sub: Submission, validade: string,
                  render: Outcome, send: Outcome): (r: Run)
    requires WellFormed(inserted) && id in inserted.rows
    ensures r.afterInsert == inserted && WellFormed(r.store)
    ensures r.store.lastId == inserted.lastId && r.store.rows.Keys == inserted.rows.Keys
    ensures forall k :: k in inserted.rows && k != ToNumber(id) ==> r.store.rows[k] == inserted.rows[k]
    ensures StatusesOnlyChanged(inserted, r.store)
    ensures r.reply == EmailSent(id) || r.reply == EmailFailed(id)
    ensures r.reply.EmailSent? <==> render == Succeeded && send == Succeeded
    // The record JavaScript names, if there is one, is finalised.
    ensures ToNumber(id) in inserted.rows ==>
              var p := r.store.rows[ToNumber(id)];
              && p == inserted.rows[ToNumber(id)].(status := p.status)
              && (p.status == Enviado <==> render == Succeeded && send == Succeeded)
              && (p.status == Enviado || p.status == Falha)
    ensures && 1 <= |r.calls| <= 2
            && r.calls[0].Render?
            && (|r.calls| == 2 <==> render == Succeeded)
            && (|r.calls| == 2 ==> r.calls[1] == Send(sub.to, sub.subject, r.calls[0].markup))
    // The markup rendered and sent is the composition, with each field and each
    // link in its slot.
    ensures r.calls[0].markup
            == ComposeDispatch(t, sub.cliente, sub.empresa, sub.valor, sub.descricao, validade,
                               PrintedInteger(ToNumber(id)))
    ensures var html := r.calls[0].markup;
            && Occurs(sub.cliente, html) && Occurs(sub.empresa, html)
            && Occurs(sub.valor, html) && Occurs(sub.descricao, html)
            && Occurs(validade, html)
            && Occurs(DecisionLink(PrintedInteger(ToNumber(id)), Aceitar), html)
            && Occurs(DecisionLink(PrintedInteger(ToNumber(id)), Recusar), html)
    // Up to 2^53 the record finalised and the record linked are the inserted one.
    ensures id <= ExactLimit ==> ToNumber(id) == id && PrintedInteger(id) == id
  {
    var jsId := ToNumber(id);
    assert id <= ExactLimit ==> jsId == id && PrintedInteger(id) == id by {
      if id <= ExactLimit {
        ToNumberExact(id);
        PrintedExact(id);
      }
    }
    var html := ComposeDispatch(t, sub.cliente, sub.empresa, sub.valor, sub.descricao, validade,
                                PrintedInteger(jsId));
    var d := Deliver(html, sub.to, sub.subject, render, send);
    var final := UpdateStatus(inserted, jsId, d.status);
    Run(inserted, final, if d.status == Enviado then EmailSent(id) else EmailFailed(id), d.calls)
  }

  /** One `/send-email` request against store `s`, on day `today`, with the
      store's clock reading `now`, writing the markup around the fixed text `t`
      (the server's is `DispatchTemplate`; see `ServeSendEmail`). */
  function SendEmail(t: Template, s: Store, sub: Submission, today: Date, now: int,
                     engineOk: bool, render: Outcome, send: Outcome): (r: Run)
    requires WellFormed(s) && Renderable(today, sub.prazo)
    ensures WellFormed(r.store)
    // The insert fails: nothing else happens and the store is as it was.
    ensures r.reply.SaveFailed? <==> !engineOk || s.lastId == MaxRowId
    ensures r.reply.SaveFailed? ==> r.afterInsert == s && r.store == s && r.calls == []
    // The insert succeeds: one new record under a fresh id, first written as
    // "Pendente" with the submitted fields and the validity. Only the record
    // JavaScript's rounding of the id names is finalised.
    ensures !r.reply.SaveFailed? ==>
              var id := r.reply.id;
              && id >= 1
              && id !in s.rows
              && (forall k :: k in s.rows ==> k < id)
              && r.afterInsert.rows.Keys == s.rows.Keys + {id}
              && r.store.rows.Keys == s.rows.Keys + {id}
              && (forall k :: k in s.rows && k != ToNumber(id) ==> r.store.rows[k] == s.rows[k])
              && StatusesOnlyChanged(r.afterInsert, r.store)
              && r.afterInsert.rows[id] == PendingRecord(sub, ValidityText(today, sub.prazo), now)
              && (r.reply.EmailSent? <==> render == Succeeded && send == Succeeded)
    // Render is called with the composed markup; send only after render succeeds.
    ensures !r.reply.SaveFailed? ==>
              && 1 <= |r.calls| <= 2
              && r.calls[0].Render?
              && (|r.calls| == 2 <==> render == Succeeded)
              && (|r.calls| == 2 ==> r.calls[1] == Send(sub.to, sub.subject, r.calls[0].markup))
    // The markup is the composition of the fields and the links JavaScript
    // writes for the new id, each in its slot.
    ensures !r.reply.SaveFailed? ==>
              r.calls[0].markup
              == ComposeDispatch(t, sub.cliente, sub.empresa, sub.valor, sub.descricao,
                                 ValidityText(today, sub.prazo), PrintedInteger(ToNumber(r.reply.id)))
    ensures !r.reply.SaveFailed? ==>
              var html := r.calls[0].markup;
              && Occurs(sub.cliente, html) && Occurs(sub.empresa, html)
              && Occurs(sub.valor, html) && Occurs(sub.descricao, html)
              && Occurs(ValidityText(today, sub.prazo), html)
  {
    var validade := ValidityText(today, sub.prazo);
    var inserted := Insert(s, PendingRecord(sub, validade, now), engineOk);
    if inserted.NotSaved? then Run(s, s, SaveFailed(inserted.error), [])
    else Finish(t, inserted.store, inserted.id, sub, validade, render, send)
  }

  /** While ids are exact Numbers, a dispatch goes to its own record: the links
      name the new record, which ends "Enviado" exactly when render and send
      succeed, else "Falha", and no other record changes. */
  lemma SendEmailWhileExact(t: Template, s: Store, sub: Submission, today: Date, now: int,
                            engineOk: bool, render: Outcome, send: Outcome)
    requires WellFormed(s) && Renderable(today, sub.prazo) && s.lastId < ExactLimit
    ensures var r := SendEmail(t, s, sub, today, now, engineOk, render, send);
            !r.reply.SaveFailed? ==>
              var id := r.reply.id;
              && id in r.store.rows
              && Occurs(DecisionLink(id, Aceitar), r.calls[0].markup)
              && Occurs(DecisionLink(id, Recusar), r.calls[0].markup)
              && (forall k :: k in s.rows ==> r.store.rows[k] == s.rows[k])
              && r.store.rows[id] == r.afterInsert.rows[id].(status := r.store.rows[id].status)
              && (r.store.rows[id].status == Enviado <==> render == Succeeded && send == Succeeded)
              && (r.store.rows[id].status == Enviado || r.store.rows[id].status == Falha)
  {
    var validade := ValidityText(today, sub.prazo);
    var inserted := Insert(s, PendingRecord(sub, validade, now), engineOk);
    if inserted.Saved? {
      var r := Finish(t, inserted.store, inserted.id, sub, validade, render, send);
      assert SendEmail(t, s, sub, today, now, engineOk, render, send) == r;
      assert inserted.id <= ExactLimit;
    }
  }

  /** The `/send-email` route as deployed, with the server's own markup text. */
  function ServeSendEmail(s: Store, sub: Submission, today: Date, now: int,
                          engineOk: bool, render: Outcome, send: Outcome): Run
    requires WellFormed(s) && Renderable(today, sub.prazo)
  {
    SendEmail(DispatchTemplate, s, sub, today, now, engineOk, render, send)
  }

  /** The links in a dispatched proposal lead back to it: following one records
      that decision on the new record and on no other. */
  lemma DispatchedLinksDecideTheirProposal(t: Template, s: Store, sub: Submission, today: Date, now: int,
                                           render: Outcome, send: Outcome, d: Decision)
    requires WellFormed(s) && Renderable(today, sub.prazo) && s.lastId < ExactLimit
    ensures var r := SendEmail(t, s, sub, today, now, true, render, send);
            var link := DecisionLink(r.reply.id, d);
            && Occurs(link, r.calls[0].markup)
            && ParseDecisionLink(link) == Some(LinkTarget(r.reply.id, d))
            && Decide(r.store, ParseDecisionLink(link).value.id, d, true).store.rows[r.reply.id].status
               == DecidedStatus(d)
            && (forall k :: k in s.rows ==>
                  Decide(r.store, ParseDecisionLink(link).value.id, d, true).store.rows[k] == s.rows[k])
  {
    var r := SendEmail(t, s, sub, today, now, true, render, send);
    SendEmailWhileExact(t, s, sub, today, now, true, render, send);
    ParseDecisionLinkRoundTrip(r.reply.id, d);
  }

  /** Past 2^53 the rounding misdirects the dispatch: with record 2^53 stored
      and last, the next record's id 2^53 + 1 reaches JavaScript as 2^53, so
      record 2^53 is the one finalised and the new record stays "Pendente". */
  lemma RoundedIdFinalisesAnotherRecord(t: Template, s: Store, sub: Submission, today: Date, now: int,
                                        render: Outcome, send: Outcome)
    requires WellFormed(s) && Renderable(today, sub.prazo)
    requires s.lastId == ExactLimit && ExactLimit in s.rows
    ensures var r := SendEmail(t, s, sub, today, now, true, render, send);
            && r.reply.id == ExactLimit + 1
            && r.store.rows[ExactLimit + 1].status == Pendente
            && r.store.rows[ExactLimit].status
               == (if render == Succeeded && send == Succeeded then Enviado else Falha)
  {
    var validade := ValidityText(today, sub.prazo);
    var inserted := Insert(s, PendingRecord(sub, validade, now), true);
    ToNumberPastExactLimit();
    assert SendEmail(t, s, sub, today, now, true, render, send)
           == Finish(t, inserted.store, inserted.id, sub, validade, render, send);
  }

  /** In the same dispatch the markup links to record 2^53 as well. */
  lemma RoundedIdLinksAnotherRecord(t: Template, s: Store, sub: Submission, today: Date, now: int,
                                    render: Outcome, send: Outcome)
    requires WellFormed(s) && Renderable(today, sub.prazo)
    requires s.lastId == ExactLimit
    ensures var r := SendEmail(t, s, sub, today, now, true, render, send);
            && r.reply.id == ExactLimit + 1
            && Occurs(DecisionLink(ExactLimit, Aceitar), r.calls[0].markup)
            && Occurs(DecisionLink(ExactLimit, Recusar), r.calls[0].markup)
  {
    var validade := ValidityText(today, sub.prazo);
    var inserted := Insert(s, PendingRecord(sub, validade, now), true);
    ToNumberPastExactLimit();
    PrintedExact(ExactLimit);
    assert SendEmail(t, s, sub, today, now, true, render, send)
           == Finish(t, inserted.store, inserted.id, sub, validade, render, send);
  }

  /** Past 2^54 an id can be exactly a Number: with the last id at 2^54 + 7,
      the new record 2^54 + 8 is the one finalised, and no other record changes. */
  lemma TwiceExactLimitIdFinalisesItsRecord(t: Template, s: Store, sub: Submission, today: Date, now: int,
                                            render: Outcome, send: Outcome)
    requires WellFormed(s) && Renderable(today, sub.prazo)
    requires s.lastId == 2 * ExactLimit + 7
    ensures var r := SendEmail(t, s, sub, today, now, true, render, send);
            && r.reply.id == 2 * ExactLimit + 8
            && r.store.rows[2 * ExactLimit + 8].status
               == (if render == Succeeded && send == Succeeded then Enviado else Falha)
            && (forall k :: k in s.rows ==> r.store.rows[k] == s.rows[k])
  {
    var validade := ValidityText(today, sub.prazo);
    var inserted := Insert(s, PendingRecord(sub, validade, now), true);
    TwiceExactLimitIsANumber();
    assert SendEmail(t, s, sub, today, now, true, render, send)
           == Finish(t, inserted.store, inserted.id, sub, validade, render, send);
  }

  /** Yet Number::toString writes that id as 18014398509481990, so the links
      of the same dispatch lead to record 2^54 + 6, which it leaves as it was. */
  lemma PrintedIdLinksAnotherRecord(t: Template, s: Store, sub: Submission, today: Date, now: int,
                                    render: Outcome, send: Outcome)
    requires WellFormed(s) && Renderable(today, sub.prazo)
    requires s.lastId == 2 * ExactLimit + 7
    ensures var r := SendEmail(t, s, sub, today, now, true, render, send);
            && r.reply.id == 2 * ExactLimit + 8
            && Occurs(DecisionLink(2 * ExactLimit + 6, Aceitar), r.calls[0].markup)
            && Occurs(DecisionLink(2 * ExactLimit + 6, Recusar), r.calls[0].markup)
  {
    var validade := ValidityText(today, sub.prazo);
    var inserted := Insert(s, PendingRecord(sub, validade, now), true);
    PrintedPastTwiceExactLimit();
    assert SendEmail(t, s, sub, today, now, true, render, send)
           == Finish(t, inserted.store, inserted.id, sub, validade, render, send);
  }

  /** With a clock that has moved on since the last record, a dispatch keeps
      ids and timestamps in the same strict order. */
  lemma SendEmailKeepsChronology(t: Template, s: Store, sub: Submission, today: Date, now: int,
                                 engineOk: bool, render: Outcome, send: Outcome)
    requires WellFormed(s) && Renderable(today, sub.prazo)
    requires StrictlyChronological(s)
    requires forall k :: k in s.rows ==> s.rows[k].dataEnvio < now
    ensures StrictlyChronological(SendEmail(t, s, sub, today, now, engineOk, render, send).store)
  {
    var r := SendEmail(t, s, sub, today, now, engineOk, render, send);
    InsertLatestKeepsChronology(s, PendingRecord(sub, ValidityText(today, sub.prazo), now), engineOk);
    if !r.reply.SaveFailed? {
      StatusWritesKeepChronology(r.afterInsert, r.store);
    }
  }
}
