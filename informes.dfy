/** The report listing of routes/informes.js (`GET /informes`): defaults for `page` and
    `limit`, the query built from `search` and `userId`, the newest-first order, and the
    skip/limit page with its `total` and `totalPages`. The collection is given as a
    sequence of reports; the database answers are computed from it. */
module Informes {
  import opened Text

  /** A stored report, as far as the listing reads it. */
  datatype Informe = Informe(title: string, generatedBy: Option<string>, createdAt: int)

  /** The query object: an optional title pattern and an optional creator id. */
  datatype Consulta = Consulta(title: Option<string>, generatedBy: Option<string>)

  /** The JSON body of a successful listing. */
  datatype Listado = Listado(total: nat, page: int, totalPages: nat, data: seq<Informe>)

  datatype Respuesta = Ok(listado: Listado) | ErrorInterno

  const PageDefault := 1
  const LimitDefault := 10

  /** `if (search) query.title = …; if (userId) query.generatedBy = userId`: a filter is set
      only for a non-empty value. */
  function ConstruirConsulta(search: Option<string>, userId: Option<string>): (q: Consulta)
    ensures q.title.Some? <==> search.Some? && search.value != ""
    ensures q.title.Some? ==> q.title == search
    ensures q.generatedBy.Some? <==> userId.Some? && userId.value != ""
    ensures q.generatedBy.Some? ==> q.generatedBy == userId
  {
    var s := search.GetOr("");
    Consulta(if s != "" then Some(s) else None,
             if userId.Some? && userId.value != "" then userId else None)
  }

  /** A report matches when its title contains the pattern, ignoring case, and its creator
      is the one asked for. */
  predicate Coincide(q: Consulta, inf: Informe) {
    (q.title.None? || Contains(ToLower(inf.title), ToLower(q.title.value)))
    && (q.generatedBy.None? || inf.generatedBy == q.generatedBy)
  }

  /** The matching reports, in collection order. */
  function Filtrar(docs: seq<Informe>, q: Consulta): (r: seq<Informe>)
    ensures forall x :: x in r <==> x in docs && Coincide(q, x)
    ensures |r| <= |docs|
  {
    if docs == [] then []
    else
      var resto := Filtrar(docs[..|docs| - 1], q);
      var x := docs[|docs| - 1];
      assert forall y :: y in docs <==> y in docs[..|docs| - 1] || y == x by {
        assert docs == docs[..|docs| - 1] + [x];
      }
      if Coincide(q, x) then resto + [x] else resto
  }

  /** The query is applied report by report, keeping collection order and repetitions:
      filtering distributes over concatenation. */
  lemma {:induction false} FiltrarAppend(a: seq<Informe>, b: seq<Informe>, q: Consulta)
    ensures Filtrar(a + b, q) == Filtrar(a, q) + Filtrar(b, q)
    decreases |b|
  {
    if b == [] {
      assert a + b == a;
    } else {
      var b' := b[..|b| - 1];
      assert (a + b)[..|a + b| - 1] == a + b';
      assert (a + b)[|a + b| - 1] == b[|b| - 1];
      FiltrarAppend(a, b', q);
    }
  }

  /** `$options: 'i'`: the case of the pattern does not matter. */
  lemma CoincideSinMayusculas(q: Consulta, inf: Informe)
    requires q.title.Some?
    ensures Coincide(q, inf) <==> Coincide(q.(title := Some(ToUpper(q.title.value))), inf)
    ensures Coincide(q, inf) <==> Coincide(q.(title := Some(ToLower(q.title.value))), inf)
  {
    var t := q.title.value;
    assert ToLower(ToUpper(t)) == ToLower(t);
    assert ToLower(ToLower(t)) == ToLower(t);
  }

  /** With neither filter, every report matches. */
  lemma {:induction false} SinFiltros(docs: seq<Informe>)
    ensures Filtrar(docs, ConstruirConsulta(None, None)) == docs
  {
    if docs != [] {
      SinFiltros(docs[..|docs| - 1]);
    }
  }

  /** Newest first. */
  predicate Ordenado(s: seq<Informe>) {
    forall i, j :: 0 <= i < j < |s| ==> s[i].createdAt >= s[j].createdAt
  }

  /** `x` placed before the first report older than it. */
  function Insertar(x: Informe, s: seq<Informe>): (r: seq<Informe>)
    requires Ordenado(s)
    ensures Ordenado(r)
    ensures multiset(r) == multiset(s) + multiset{x}
    ensures forall i :: 0 <= i < |r| ==> r[i] == x || r[i] in s
  {
    if s == [] then [x]
    else if s[0].createdAt <= x.createdAt then [x] + s
    else
      var t := Insertar(x, s[1..]);
      assert s == [s[0]] + s[1..];
      assert forall i :: 0 <= i < |t| ==> t[i].createdAt <= s[0].createdAt;
      PrependOrdenado(s[0], t);
      [s[0]] + t
  }

  lemma PrependOrdenado(y: Informe, t: seq<Informe>)
    requires Ordenado(t)
    requires forall i :: 0 <= i < |t| ==> t[i].createdAt <= y.createdAt
    ensures Ordenado([y] + t)
  {
    var r := [y] + t;
    forall i, j | 0 <= i < j < |r|
      ensures r[i].createdAt >= r[j].createdAt
    {
      assert r[j] == t[j - 1];
      if i > 0 {
        assert r[i] == t[i - 1];
      }
    }
  }

  /** `.sort({ createdAt: -1 })`. */
  function Ordenar(s: seq<Informe>): (r: seq<Informe>)
    ensures Ordenado(r)
    ensures multiset(r) == multiset(s)
  {
    if s == [] then []
    else
      assert s == [s[0]] + s[1..];
      Insertar(s[0], Ordenar(s[1..]))
  }

  /** `(page - 1) * limit`. */
  function Skip(page: int, limit: int): (k: nat)
    requires page >= 1 && limit >= 1
    ensures k == (page - 1) * limit
  {
    (page - 1) * limit
  }

  /** `.skip(k).limit(limit)` over the sorted matches. */
  function Pagina(s: seq<Informe>, page: int, limit: int): (r: seq<Informe>)
    requires page >= 1 && limit >= 1
    ensures |r| <= limit
    ensures Skip(page, limit) >= |s| ==> r == []
    ensures Skip(page, limit) < |s| ==> r == s[Skip(page, limit)..Min(Skip(page, limit) + limit, |s|)]
  {
    var k := Skip(page, limit);
    if k >= |s| then [] else s[k..Min(k + limit, |s|)]
  }

  /** `Math.ceil(total / limit)`. */
  function TotalPaginas(total: nat, limit: int): (p: nat)
    requires limit >= 1
    ensures p * limit >= total
    ensures total > 0 ==> (p - 1) * limit < total
    ensures total == 0 ==> p == 0
  {
    (total + limit - 1) / limit
  }

  /** `GET /informes`: the listing of `docs` for the given query parameters, or 500 when the
      database fails. */
  function Listar(docs: seq<Informe>, page: Option<int>, limit: Option<int>, search: Option<string>,
                  userId: Option<string>, consultaOk: bool): (r: Respuesta)
    requires page.None? || page.value >= 1
    requires limit.None? || limit.value >= 1
    ensures !consultaOk <==> r.ErrorInterno?
    ensures r.Ok? ==> r.listado.page == page.GetOr(PageDefault)
    // `total` counts every match, whatever the page
    ensures r.Ok? ==> r.listado.total == |Filtrar(docs, ConstruirConsulta(search, userId))|
    ensures r.Ok? ==> r.listado.totalPages == TotalPaginas(r.listado.total, limit.GetOr(LimitDefault))
    ensures r.Ok? ==> |r.listado.data| <= limit.GetOr(LimitDefault)
    ensures r.Ok? ==> (r.listado.data ==
      Pagina(Ordenar(Filtrar(docs, ConstruirConsulta(search, userId))), page.GetOr(PageDefault), limit.GetOr(LimitDefault)))
  {
    if !consultaOk then ErrorInterno
    else
      var p := page.GetOr(PageDefault);
      var l := limit.GetOr(LimitDefault);
      var coinciden := Filtrar(docs, ConstruirConsulta(search, userId));
      Ok(Listado(|coinciden|, p, TotalPaginas(|coinciden|, l), Pagina(Ordenar(coinciden), p, l)))
  }

  /** Every listed report matches the query, and the page is newest first. */
  lemma DatosCoinciden(docs: seq<Informe>, page: Option<int>, limit: Option<int>, search: Option<string>,
                       userId: Option<string>)
    requires page.None? || page.value >= 1
    requires limit.None? || limit.value >= 1
    ensures var r := Listar(docs, page, limit, search, userId, true);
      && (forall x :: x in r.listado.data ==> x in docs && Coincide(ConstruirConsulta(search, userId), x))
      && Ordenado(r.listado.data)
  {
    var q := ConstruirConsulta(search, userId);
    var coinciden := Filtrar(docs, q);
    var orden := Ordenar(coinciden);
    PaginaDeOrden(orden, page.GetOr(PageDefault), limit.GetOr(LimitDefault));
    forall x | x in orden
      ensures x in coinciden
    {
      assert x in multiset(orden);
    }
  }

  /** A page holds results only, in their order. */
  lemma PaginaDeOrden(s: seq<Informe>, page: int, limit: int)
    requires page >= 1 && limit >= 1
    requires Ordenado(s)
    ensures forall x :: x in Pagina(s, page, limit) ==> x in s
    ensures Ordenado(Pagina(s, page, limit))
  {
  }

  /** The pages `1..k` laid end to end. */
  function Paginas(s: seq<Informe>, k: nat, limit: int): seq<Informe>
    requires limit >= 1
  {
    if k == 0 then [] else Paginas(s, k - 1, limit) + Pagina(s, k, limit)
  }

  /** Walking the pages `1..k` reads the first `k * limit` results, in order. */
  lemma {:induction false} PaginasPrefijo(s: seq<Informe>, k: nat, limit: int)
    requires limit >= 1
    ensures Paginas(s, k, limit) == s[..Min(k * limit, |s|)]
  {
    if k > 0 {
      PaginasPrefijo(s, k - 1, limit);
      var skip := (k - 1) * limit;
      assert k * limit == skip + limit;
      var a := Min(skip, |s|);
      var b := Min(skip + limit, |s|);
      assert Pagina(s, k, limit) == s[a..b];
      assert s[..b] == s[..a] + s[a..b];
    }
  }

  /** The `totalPages` pages together are exactly the full ordered result: no report is
      skipped or repeated, and there is no trailing empty page. */
  lemma PaginasCubren(s: seq<Informe>, limit: int)
    requires limit >= 1
    ensures Paginas(s, TotalPaginas(|s|, limit), limit) == s
    ensures TotalPaginas(|s|, limit) > 0 ==> Pagina(s, TotalPaginas(|s|, limit), limit) != []
  {
    var n := TotalPaginas(|s|, limit);
    PaginasPrefijo(s, n, limit);
    assert s[..|s|] == s;
  }
}
