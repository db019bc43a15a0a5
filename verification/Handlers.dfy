/** What the request handlers do around the operations: take strings out of checked payloads, and turn
    query parameters into the arguments of a fetch. Routing and status texts are not modelled. */
module Handlers {
  import opened Options
  import opened Payload
  import opened Schema
  import opened Paging
  import opened Fetching

  const SERVICE_TEMPLATE: map<string, JsonType> := map["name" := String, "description" := String]
  const NEW_VERSION_TEMPLATE: map<string, JsonType> := map["tag" := String, "info" := String]
  const VERSION_INFO_TEMPLATE: map<string, JsonType> := map["info" := String]

  datatype Accept<+T> = BadRequest | Pass(value: T)

  /** addService and updateService: the name and description to hand on. The string assertions on
      the fields cannot fail once the check has passed. */
  method ReadServicePayload(payload: map<string, Json>) returns (r: Accept<(string, string)>)
    ensures r.Pass? <==>
      && payload.Keys == {"name", "description"}
      && payload["name"].JString? && payload["description"].JString? && payload["name"] != JString("")
    ensures r.Pass? ==> payload == map["name" := JString(r.value.0), "description" := JString(r.value.1)]
  {
    assert SERVICE_TEMPLATE.Keys == {"name", "description"};
    var strict := EnsureFieldsStrictlyExists(payload, SERVICE_TEMPLATE);
    if !strict {
      return BadRequest;
    }
    assert "name" in SERVICE_TEMPLATE && "description" in SERVICE_TEMPLATE;
    if payload["name"] == JString("") {
      return BadRequest;
    }
    r := Pass((payload["name"].s, payload["description"].s));
  }

  /** addServiceVersion: the tag and info to hand on. */
  method ReadNewVersionPayload(payload: map<string, Json>) returns (r: Accept<(string, string)>)
    ensures r.Pass? <==>
      && payload.Keys == {"tag", "info"}
      && payload["tag"].JString? && payload["info"].JString? && payload["tag"] != JString("")
    ensures r.Pass? ==> payload == map["tag" := JString(r.value.0), "info" := JString(r.value.1)]
  {
    assert NEW_VERSION_TEMPLATE.Keys == {"tag", "info"};
    var strict := EnsureFieldsStrictlyExists(payload, NEW_VERSION_TEMPLATE);
    if !strict {
      return BadRequest;
    }
    assert "tag" in NEW_VERSION_TEMPLATE && "info" in NEW_VERSION_TEMPLATE;
    if payload["tag"] == JString("") {
      return BadRequest;
    }
    r := Pass((payload["tag"].s, payload["info"].s));
  }

  /** updateServiceVersion: the info to hand on, empty or not. */
  method ReadVersionInfoPayload(payload: map<string, Json>) returns (r: Accept<string>)
    ensures r.Pass? <==> payload.Keys == {"info"} && payload["info"].JString?
    ensures r.Pass? ==> payload == map["info" := JString(r.value)]
  {
    assert VERSION_INFO_TEMPLATE.Keys == {"info"};
    var strict := EnsureFieldsStrictlyExists(payload, VERSION_INFO_TEMPLATE);
    if !strict {
      return BadRequest;
    }
    assert "info" in VERSION_INFO_TEMPLATE;
    r := Pass(payload["info"].s);
  }

  /** A page or size parameter after Atoi: None when it is not a number. Page 0 stands for page 1. */
  method NormalisePaging(pageParam: Option<int>, sizeParam: Option<int>) returns (r: Accept<(int, int)>)
    requires pageParam.Some? ==> InRange(pageParam.value)
    requires sizeParam.Some? ==> InRange(sizeParam.value)
    ensures r.BadRequest? <==> pageParam.None? || pageParam.value < 0 || sizeParam.None? || sizeParam.value < 0
    ensures r.Pass? ==> Accepted(r.value.0, r.value.1) && r.value.1 == sizeParam.value
    ensures r.Pass? ==> r.value.0 == if pageParam.value == 0 then 1 else pageParam.value
  {
    if pageParam.None? || pageParam.value < 0 {
      return BadRequest;
    }
    var page := pageParam.value;
    if page == 0 {
      page := 1;
    }
    if sizeParam.None? || sizeParam.value < 0 {
      return BadRequest;
    }
    r := Pass((page, sizeParam.value));
  }

  datatype Listing<R> = Refused | ServerError | Listed(rows: seq<R>, total: int, page: int, size: int)

  /** A page or size parameter that is let through. */
  predicate Numeric(param: Option<int>) { param.Some? && param.value >= 0 }

  /** fetchServices: refused for a malformed parameter, an error exactly if a query sent fails, and
      otherwise what the fetch delivers for the page asked for, whatever is committed between the queries. */
  method FetchServicesRequest(atCount: Database, atSelect: Database, pageParam: Option<int>, sizeParam: Option<int>,
                              like: string -> bool, sortBy: string, inverted: string,
                              countFails: bool, selectFails: bool)
    returns (r: Listing<Service>)
    requires pageParam.Some? ==> InRange(pageParam.value)
    requires sizeParam.Some? ==> InRange(sizeParam.value)
    requires |Counted(atCount, like, sortBy == "name")| <= MAX_INT
    ensures r.Refused? <==>
      || !Numeric(pageParam) || !Numeric(sizeParam)
      || sortBy !in {"", "name", "date"} || inverted !in {"", "true", "false"}
    ensures !r.Refused? ==>
      var page, size := if pageParam.value == 0 then 1 else pageParam.value, sizeParam.value;
      var counted := Counted(atCount, like, sortBy == "name");
      var selected := Selected(atSelect, like, sortBy == "name");
      var query := PageQuery(|counted|, page, size, inverted == "true");
      && Accepted(page, size)
      && (r.ServerError? <==> countFails || (query.Some? && selectFails))
      && (r.Listed? ==>
            && r.page == page && r.size == size && r.total == |counted|
            && Delivers(counted, selected, page, size, inverted == "true", query, r.rows))
  {
    var paging := NormalisePaging(pageParam, sizeParam);
    if paging.BadRequest? {
      return Refused;
    }
    var (page, pageSize) := paging.value;
    var fetchNameSorted, invertedFetch := false, false;
    if sortBy != "" && sortBy != "name" && sortBy != "date" {
      return Refused;
    }
    if sortBy == "name" {
      fetchNameSorted := true;
    }
    if inverted != "" && inverted != "true" && inverted != "false" {
      return Refused;
    }
    if inverted == "true" {
      invertedFetch := true;
    }
    var services, total, failed, sent :=
      FetchServices(atCount, atSelect, page, pageSize, like, invertedFetch, fetchNameSorted, countFails, selectFails);
    if failed {
      return ServerError;
    }
    r := Listed(services, total, page, pageSize);
  }
}
