/** The markup of a dispatched proposal: the letterhead, the proposal's
    fields embedded as they were submitted (no escaping), the validity, and the
    accept and reject links that carry the id of the record just inserted. */
module Markup {
  import opened Optional
  import opened Decimal
  import opened Proposals

  /** Where the server is deployed; the links are absolute. */
  const Origin: string := "https://proposta-express-backend-1.onrender.com"

  const ProposalPath: string := "/proposta/"

  function DecisionSuffix(d: Decision): (s: string)
    ensures |s| == 8
  {
    match d
    case Aceitar => "/aceitar"
    case Recusar => "/recusar"
  }

  /** `aceitarLink` and `recusarLink`: the decision route for proposal `id`.
      `ParseDecisionLinkRoundTrip` shows the route leads back to `id` and `d`. */
  function DecisionLink(id: nat, d: Decision): (url: string)
    ensures var prefix := Origin + ProposalPath;
            && |url| > |prefix| + 8
            && url[..|prefix|] == prefix
            && AllDigits(url[|prefix|..|url| - 8])
            && url[|url| - 8..] == DecisionSuffix(d)
  {
    var prefix := Origin + ProposalPath;
    var url := prefix + Show(id) + DecisionSuffix(d);
    assert url[..|prefix|] == prefix;
    assert url[|prefix|..|url| - 8] == Show(id);
    url
  }

  datatype LinkTarget = LinkTarget(id: nat, decision: Decision)

  /** The route a link leads to: `/proposta/:id/aceitar` or `/proposta/:id/recusar`
      under `Origin`, with a decimal id. */
  function ParseDecisionLink(url: string): Option<LinkTarget> {
    var prefix := Origin + ProposalPath;
    if |url| > |prefix| + 8 && url[..|prefix|] == prefix then
      var segment := url[|prefix|..|url| - 8];
      var tail := url[|url| - 8..];
      if AllDigits(segment) && tail == DecisionSuffix(Aceitar) then
        Some(LinkTarget(ParseDigits(segment), Aceitar))
      else if AllDigits(segment) && tail == DecisionSuffix(Recusar) then
        Some(LinkTarget(ParseDigits(segment), Recusar))
      else None
    else None
  }

  /** Following a decision link reaches the decision route for the same proposal
      and the same decision. */
  lemma ParseDecisionLinkRoundTrip(id: nat, d: Decision)
    ensures ParseDecisionLink(DecisionLink(id, d)) == Some(LinkTarget(id, d))
  {
    var prefix := Origin + ProposalPath;
    var url := DecisionLink(id, d);
    assert url == prefix + Show(id) + DecisionSuffix(d);
    assert url[..|prefix|] == prefix;
    assert url[|prefix|..|url| - 8] == Show(id);
    assert url[|url| - 8..] == DecisionSuffix(d);
    ParseShow(id);
  }

  /** Links of different proposals, or of different decisions, differ. */
  lemma DecisionLinkInjective(a: nat, da: Decision, b: nat, db: Decision)
    ensures DecisionLink(a, da) == DecisionLink(b, db) ==> a == b && da == db
  {
    ParseDecisionLinkRoundTrip(a, da);
    ParseDecisionLinkRoundTrip(b, db);
  }

  /** `f` appears verbatim in `s` from position `i` on. */
  predicate OccursAt(f: string, s: string, i: int) {
    0 <= i <= |s| - |f| && s[i..i + |f|] == f
  }

  /** `f` appears verbatim somewhere in `s`. */
  predicate Occurs(f: string, s: string) {
    exists i | 0 <= i <= |s| :: OccursAt(f, s, i)
  }

  lemma OccursAfter(f: string, a: string, b: string)
    requires Occurs(f, b)
    ensures Occurs(f, a + b)
  {
    var i :| 0 <= i <= |b| && OccursAt(f, b, i);
    assert 0 <= i <= |b| - |f| && b[i..i + |f|] == f;
    assert (a + b)[|a| + i..|a| + i + |f|] == f;
    assert OccursAt(f, a + b, |a| + i);
  }

  function Concat(pieces: seq<string>): string {
    if |pieces| == 0 then "" else pieces[0] + Concat(pieces[1..])
  }

  /** Every piece appears verbatim in the concatenation of the pieces. */
  lemma {:induction false} PieceOccurs(pieces: seq<string>, k: nat)
    requires k < |pieces|
    ensures Occurs(pieces[k], Concat(pieces))
  {
    if k == 0 {
      var s := Concat(pieces);
      assert s[0..|pieces[0]|] == pieces[0];
      assert OccursAt(pieces[0], s, 0);
    } else {
      PieceOccurs(pieces[1..], k - 1);
      OccursAfter(pieces[k], pieces[0], Concat(pieces[1..]));
    }
  }

  /** Concatenating two lists of pieces is concatenating their concatenations. */
  lemma {:induction false} ConcatAppend(a: seq<string>, b: seq<string>)
    ensures Concat(a + b) == Concat(a) + Concat(b)
  {
    if |a| == 0 {
      assert a + b == b;
    } else {
      assert (a + b)[1..] == a[1..] + b;
      ConcatAppend(a[1..], b);
    }
  }

  lemma OccursBetween(a: string, f: string, b: string)
    ensures Occurs(f, a + f + b)
  {
    assert (a + f + b)[|a|..|a| + |f|] == f;
    assert OccursAt(f, a + f + b, |a|);
  }

  lemma ConcatThree(w: seq<string>)
    requires |w| == 3
    ensures Concat(w) == w[0] + w[1] + w[2]
  {
    assert Concat(w[2..]) == w[2] by {
      assert w[2..][1..] == [];
    }
    assert w[1..][1..] == w[2..];
  }

  lemma WindowOccurs(pieces: seq<string>, i: nat)
    requires i + 3 <= |pieces|
    ensures Occurs(pieces[i] + pieces[i + 1] + pieces[i + 2], Concat(pieces))
  {
    var pre, win, post := pieces[..i], pieces[i..i + 3], pieces[i + 3..];
    var w := pieces[i] + pieces[i + 1] + pieces[i + 2];
    assert pieces == pieces[..i + 3] + post;
    assert pieces[..i + 3] == pre + win;
    assert Concat(win) == w by {
      ConcatThree(win);
    }
    assert Concat(pieces) == Concat(pre) + w + Concat(post) by {
      ConcatAppend(pre + win, post);
      ConcatAppend(pre, win);
    }
    OccursBetween(Concat(pre), w, Concat(post));
  }

  /** The concatenation starts with the first piece and ends with the last. */
  lemma ConcatEnds(pieces: seq<string>)
    requires |pieces| > 0
    ensures |pieces[0]| <= |Concat(pieces)| && Concat(pieces)[..|pieces[0]|] == pieces[0]
    ensures var s := Concat(pieces); var z := pieces[|pieces| - 1];
            |z| <= |s| && s[|s| - |z|..] == z
  {
    var n := |pieces|;
    assert pieces == pieces[..n - 1] + [pieces[n - 1]];
    ConcatAppend(pieces[..n - 1], [pieces[n - 1]]);
    assert Concat([pieces[n - 1]]) == pieces[n - 1] by {
      assert [pieces[n - 1]][1..] == [];
    }
  }

  // The fixed text of the dispatch markup, between the interpolated values.

  const Letterhead: string :=
    "\n" +
    "        <!DOCTYPE html>\n" +
    "        <html>\n" +
    "        <head>\n" +
    "          <meta charset=\"UTF-8\">\n" +
    "          <style>\n" +
    "            body { font-family: Arial, sans-serif; color: #2c3e50; margin: 20px; }\n" +
    "            .header { text-align: center; border-bottom: 2px solid #2980b9; padding-bottom: 10px; margin-bottom: 20px; }\n" +
    "            .header img { max-width: 300px; height: auto; }\n" +
    "            .content h1 { color: #2980b9; }\n" +
    "            .content p { font-size: 14px; margin: 5px 0; }\n" +
    "            .footer { margin-top: 30px; font-size: 12px; color: #7f8c8d; text-align: center; border-top: 1px solid #bdc3c7; padding-top: 10px; }\n" +
    "            .btn { display:inline-block; padding:10px 15px; border-radius:5px; text-decoration:none; color:#fff; margin:5px; }\n" +
    "            .btn-aceitar { background:#27ae60; }\n" +
    "            .btn-recusar { background:#c0392b; }\n" +
    "          </style>\n" +
    "        </head>\n" +
    "        <body>\n" +
    "          <div class=\"header\">\n" +
    "            <img src=\"https://github.com/jcfidelisma/Proposta-Express/blob/main/logo.png?raw=true\" alt=\"Logo Empresa\">\n" +
    "            <h2>Proposta Express</h2>\n" +
    "          </div>\n" +
    "          <div class=\"content\">\n" +
    "            <h1>Proposta Comercial</h1>\n" +
    "            <p><strong>Cliente:</strong> "

  const AfterCliente: string :=
    "</p>\n" +
    "            <p><strong>Empresa:</strong> "

  const AfterEmpresa: string :=
    "</p>\n" +
    "            <p><strong>Valor:</strong> R$ "

  const AfterValor: string :=
    "</p>\n" +
    "            <p><strong>Descri\U{00E7}\U{00E3}o:</strong> "

  const AfterDescricao: string :=
    "</p>\n" +
    "            <p><strong>Validade:</strong> at\U{00E9} "

  const AfterValidade: string :=
    "</p>\n" +
    "            <hr>\n" +
    "            <p>Confirme sua decis\U{00E3}o:</p>\n" +
    "            <a href=\""

  const AfterAcceptLink: string :=
    "\" class=\"btn btn-aceitar\">Aceitar Proposta</a>\n" +
    "            <a href=\""

  const Closing: string :=
    "\" class=\"btn btn-recusar\">Recusar Proposta</a>\n" +
    "          </div>\n" +
    "          <div class=\"footer\">\n" +
    "            <p>Atenciosamente,</p>\n" +
    "            <p><strong>Equipe Proposta Express</strong></p>\n" +
    "            <p>Este documento foi gerado automaticamente pelo sistema.</p>\n" +
    "          </div>\n" +
    "        </body>\n" +
    "        </html>\n" +
    "      "


  /** The fixed text of a proposal's markup, piece by piece around the
      interpolated values. */
  datatype Template = Template(
    letterhead: string,
    afterCliente: string,
    afterEmpresa: string,
    afterValor: string,
    afterDescricao: string,
    afterValidade: string,
    afterAcceptLink: string,
    closing: string)

  /** The text the server writes around the values of a dispatched proposal. */
  const DispatchTemplate: Template :=
    Template(Letterhead, AfterCliente, AfterEmpresa, AfterValor, AfterDescricao,
             AfterValidade, AfterAcceptLink, Closing)

  /** `htmlContent` of the dispatch, around the fixed text `t`: the fields and
      the validity embedded verbatim, then the accept and reject links of
      proposal `id`. */
  function ComposeDispatch(t: Template, cliente: string, empresa: string, valor: string,
                           descricao: string, validade: string, id: nat): (html: string)
    // The markup opens with the letterhead and closes with the closing text.
    ensures |t.letterhead| <= |html| && html[..|t.letterhead|] == t.letterhead
    ensures |t.closing| <= |html| && html[|html| - |t.closing|..] == t.closing
    // Each value sits in its own slot, between the text that labels it and the next.
    ensures Occurs(t.letterhead + cliente + t.afterCliente, html)
    ensures Occurs(t.afterCliente + empresa + t.afterEmpresa, html)
    ensures Occurs(t.afterEmpresa + valor + t.afterValor, html)
    ensures Occurs(t.afterValor + descricao + t.afterDescricao, html)
    ensures Occurs(t.afterDescricao + validade + t.afterValidade, html)
    // The accept link fills the first anchor and the reject link the second.
    ensures Occurs(t.afterValidade + DecisionLink(id, Aceitar) + t.afterAcceptLink, html)
    ensures Occurs(t.afterAcceptLink + DecisionLink(id, Recusar) + t.closing, html)
    // So each value and each link appears verbatim, unescaped.
    ensures Occurs(cliente, html) && Occurs(empresa, html)
    ensures Occurs(valor, html) && Occurs(descricao, html)
    ensures Occurs(validade, html)
    ensures Occurs(DecisionLink(id, Aceitar), html)
    ensures Occurs(DecisionLink(id, Recusar), html)
  {
    var pieces := [t.letterhead, cliente, t.afterCliente, empresa, t.afterEmpresa, valor,
                   t.afterValor, descricao, t.afterDescricao, validade, t.afterValidade,
                   DecisionLink(id, Aceitar), t.afterAcceptLink, DecisionLink(id, Recusar), t.closing];
    ConcatEnds(pieces);
    WindowOccurs(pieces, 0);
    WindowOccurs(pieces, 2);
    WindowOccurs(pieces, 4);
    WindowOccurs(pieces, 6);
    WindowOccurs(pieces, 8);
    WindowOccurs(pieces, 10);
    WindowOccurs(pieces, 12);
    PieceOccurs(pieces, 1);
    PieceOccurs(pieces, 3);
    PieceOccurs(pieces, 5);
    PieceOccurs(pieces, 7);
    PieceOccurs(pieces, 9);
    PieceOccurs(pieces, 11);
    PieceOccurs(pieces, 13);
    Concat(pieces)
  }
}
