/**
 * The default column choice of `populateColumnSelectors`
 * (js/reconciler.js:20-26): the first header whose lower-cased text
 * contains the wanted word, or the empty string when none does.
 */
module ColumnSelectors {
  import opened Wrappers
  import opened AppState
  import Strings

  predicate IsCuitHeader(h: string)
  {
    Strings.Includes(Strings.ToLower(h), "cuit")
  }

  predicate IsArcaMontoHeader(h: string)
  {
    Strings.Includes(Strings.ToLower(h), "monto retenido")
  }

  predicate IsContabilidadMontoHeader(h: string)
  {
    Strings.Includes(Strings.ToLower(h), "cr\U{E9}dito") || Strings.Includes(Strings.ToLower(h), "monto")
  }

  /** `headers.find(wanted)` */
  function FindHeader(headers: seq<string>, wanted: string -> bool): (r: Option<string>)
    ensures r.Some? ==> r.value in headers && wanted(r.value)
  {
    if headers == [] then None
    else if wanted(headers[0]) then Some(headers[0])
    else FindHeader(headers[1..], wanted)
  }

  /** `headers.find(wanted) || ''` */
  function HeaderOrEmpty(headers: seq<string>, wanted: string -> bool): (r: string)
    ensures r == "" || (r in headers && wanted(r))
  {
    match FindHeader(headers, wanted)
    case Some(h) => h
    case None => ""
  }

  datatype ColumnDefaults = ColumnDefaults(cuit: string, monto: string)

  /** The preselected CUIT and amount columns for one side's headers. */
  function DefaultColumns(side: SourceType, headers: seq<string>): (d: ColumnDefaults)
    ensures d.cuit == "" || (d.cuit in headers && IsCuitHeader(d.cuit))
    ensures d.monto == "" || d.monto in headers
  {
    var monto := if side == Arca then IsArcaMontoHeader else IsContabilidadMontoHeader;
    ColumnDefaults(HeaderOrEmpty(headers, IsCuitHeader), HeaderOrEmpty(headers, monto))
  }

  lemma {:induction false} FindHeaderIsFirst(headers: seq<string>, wanted: string -> bool)
    ensures var r := FindHeader(headers, wanted);
      && (r.None? <==> forall i :: 0 <= i < |headers| ==> !wanted(headers[i]))
      && (r.Some? ==> exists i :: 0 <= i < |headers| && headers[i] == r.value && wanted(r.value)
                                  && forall k :: 0 <= k < i ==> !wanted(headers[k]))
  {
    if headers != [] && !wanted(headers[0]) {
      FindHeaderIsFirst(headers[1..], wanted);
      var r := FindHeader(headers, wanted);
      if r.Some? {
        var i :| 0 <= i < |headers| - 1 && headers[1..][i] == r.value && wanted(r.value)
                 && forall k :: 0 <= k < i ==> !wanted(headers[1..][k]);
        assert headers[i + 1] == r.value;
      }
      assert forall i :: 0 < i < |headers| ==> headers[i] == headers[1..][i - 1];
    }
  }

  /**
   * When no header that passes the test is empty, the choice is the first
   * passing header, and it is empty exactly when no header passes.
   */
  lemma HeaderOrEmptyIsFirstMatch(headers: seq<string>, wanted: string -> bool)
    requires forall h :: wanted(h) ==> h != ""
    ensures var r := HeaderOrEmpty(headers, wanted);
      && (r == "" <==> forall i :: 0 <= i < |headers| ==> !wanted(headers[i]))
      && (r != "" ==> exists i :: 0 <= i < |headers| && headers[i] == r && wanted(r)
                                 && forall k :: 0 <= k < i ==> !wanted(headers[k]))
  {
    FindHeaderIsFirst(headers, wanted);
  }

  lemma WantedHeadersAreNonEmpty()
    ensures forall h :: IsCuitHeader(h) ==> h != ""
    ensures forall h :: IsArcaMontoHeader(h) ==> h != ""
    ensures forall h :: IsContabilidadMontoHeader(h) ==> h != ""
  {
    forall h | IsCuitHeader(h) ensures h != "" {
      Strings.IncludesIsNoLonger(Strings.ToLower(h), "cuit");
    }
    forall h | IsArcaMontoHeader(h) ensures h != "" {
      Strings.IncludesIsNoLonger(Strings.ToLower(h), "monto retenido");
    }
    forall h | IsContabilidadMontoHeader(h) ensures h != "" {
      if Strings.Includes(Strings.ToLower(h), "monto") {
        Strings.IncludesIsNoLonger(Strings.ToLower(h), "monto");
      } else {
        Strings.IncludesIsNoLonger(Strings.ToLower(h), "cr\U{E9}dito");
      }
    }
  }

  /**
   * The preselected CUIT column is the first header containing `cuit`
   * (any case), and the amount column the first containing
   * `monto retenido` for ARCA, `crédito` or `monto` for contabilidad; each
   * is empty exactly when no header qualifies.
   */
  lemma DefaultColumnsAreFirstMatches(side: SourceType, headers: seq<string>)
    ensures var d := DefaultColumns(side, headers);
      var monto := if side == Arca then IsArcaMontoHeader else IsContabilidadMontoHeader;
      && (d.cuit == "" <==> forall i :: 0 <= i < |headers| ==> !IsCuitHeader(headers[i]))
      && (d.cuit != "" ==> exists i :: 0 <= i < |headers| && headers[i] == d.cuit && IsCuitHeader(d.cuit)
                                       && forall k :: 0 <= k < i ==> !IsCuitHeader(headers[k]))
      && (d.monto == "" <==> forall i :: 0 <= i < |headers| ==> !monto(headers[i]))
      && (d.monto != "" ==> exists i :: 0 <= i < |headers| && headers[i] == d.monto && monto(d.monto)
                                        && forall k :: 0 <= k < i ==> !monto(headers[k]))
  {
    WantedHeadersAreNonEmpty();
    HeaderOrEmptyIsFirstMatch(headers, IsCuitHeader);
    if side == Arca {
      HeaderOrEmptyIsFirstMatch(headers, IsArcaMontoHeader);
    } else {
      HeaderOrEmptyIsFirstMatch(headers, IsContabilidadMontoHeader);
    }
  }
}
