/** The SharePoint tagging behaviour: a pipe that registers one observer on a request's
    `pre` moment, and that observer, which writes the client tag into the request's
    headers and hands its arguments on unchanged. */
module Telemetry {
  import opened JsStrings
  import opened ClientTags

  /** The request header that carries the tag. */
  const ClientTagHeader: string := "X-ClientService-ClientTag"

  /** An observer registered on a moment: `ClientTagging` is the tagging observer of
      this behaviour, the one whose run `ObserveClientTag` models; `OtherObserver` is
      one registered by some other behaviour, known here only by an identity. */
  datatype Observer = ClientTagging | OtherObserver(id: nat)

  /** The request-init object an observer receives, reduced to its header dictionary. */
  class RequestInit {
    var headers: map<string, string>

    constructor (headers: map<string, string>)
      ensures this.headers == headers
    {
      this.headers := headers;
    }
  }

  /** A request object, reduced to the observers registered on its `pre` moment, in
      registration order. */
  class Queryable {
    var pre: seq<Observer>

    constructor ()
      ensures pre == []
    {
      pre := [];
    }

    /** `instance.on.pre(observer)`: appends the observer; nothing is removed or reordered. */
    method OnPre(observer: Observer)
      modifies this
      ensures pre == old(pre) + [observer]
    {
      pre := pre + [observer];
    }
  }

  /** The headers after tagging: the tag header holds the client tag for the path, and
      every other entry is as it was. */
  function Tagged(headers: map<string, string>, pathname: string): (tagged: map<string, string>)
    ensures tagged.Keys == headers.Keys + {ClientTagHeader}
    ensures tagged[ClientTagHeader] == ClientTag(pathname)
    ensures forall name :: name in headers && name != ClientTagHeader ==> tagged[name] == headers[name]
  {
    headers[ClientTagHeader := ClientTag(pathname)]
  }

  /** Tagging again for the same path changes nothing, so running the observer on every
      dispatch of a request leaves one stable tag. */
  lemma TaggedIdempotent(headers: map<string, string>, pathname: string)
    ensures Tagged(Tagged(headers, pathname), pathname) == Tagged(headers, pathname)
  {
  }

  /** Only the path decides the header: two header maps that agree off the tag header
      agree after tagging. */
  lemma TaggedForgetsOldTag(h1: map<string, string>, h2: map<string, string>, pathname: string)
    requires h1 - {ClientTagHeader} == h2 - {ClientTagHeader}
    ensures Tagged(h1, pathname) == Tagged(h2, pathname)
  {
    var tag := ClientTag(pathname);
    assert Tagged(h1, pathname) == h1[ClientTagHeader := tag];
    assert Tagged(h2, pathname) == h2[ClientTagHeader := tag];
    UpdateHidesOldValue(h1, h2, ClientTagHeader, tag);
  }

  lemma UpdateHidesOldValue<K, V>(h1: map<K, V>, h2: map<K, V>, key: K, value: V)
    requires h1 - {key} == h2 - {key}
    ensures h1[key := value] == h2[key := value]
  {
    var m1, m2 := h1[key := value], h2[key := value];
    assert m1.Keys == (h1 - {key}).Keys + {key};
    assert m2.Keys == (h2 - {key}).Keys + {key};
    forall k | k in m1
      ensures m1[k] == m2[k]
    {
      if k != key {
        assert (h1 - {key})[k] == h1[k] && (h2 - {key})[k] == h2[k];
      }
    }
  }

  /** The `pre` observer.  `pathname` is the path of `new URL(url)`.  It builds the tag in
      the local variable, cuts it at 32 characters, stores it in the headers and returns
      the same url, init and result. */
  method ObserveClientTag<R>(url: string, pathname: string, init: RequestInit, result: R)
    returns (url': string, init': RequestInit, result': R)
    modifies init
    ensures url' == url && init' == init && result' == result
    ensures init.headers == Tagged(old(init.headers), pathname)
  {
    var clientTag := TagPrefix;
    clientTag := clientTag + TagPath(ApiRemainder(pathname));
    if |clientTag| > MaxTagLength {
      clientTag := Substr(clientTag, 0, MaxTagLength);
    }
    init.headers := init.headers[ClientTagHeader := clientTag];
    url', init', result' := url, init, result;
  }

  /** `SPTagging()` applied to an instance: registers the tagging observer on `pre` and
      returns the same instance. */
  method SPTagging(instance: Queryable) returns (r: Queryable)
    modifies instance
    ensures r == instance
    ensures instance.pre == old(instance.pre) + [ClientTagging]
  {
    instance.OnPre(ClientTagging);
    r := instance;
  }

  /** A usage example with no counterpart in the library: a fresh request tagged twice
      holds two tagging observers, and one run of the observer sets the tag and keeps
      the other header. */
  method TaggingScenario(url: string, pathname: string)
  {
    var request := new Queryable();
    var same := SPTagging(request);
    assert same == request && request.pre == [ClientTagging];
    same := SPTagging(request);
    assert request.pre == [ClientTagging, ClientTagging];

    var init := new RequestInit(map["Accept" := "application/json"]);
    var url', init', result' := ObserveClientTag(url, pathname, init, 0);
    assert url' == url && init' == init && result' == 0;
    assert init.headers["Accept"] == "application/json";
    assert |init.headers[ClientTagHeader]| <= MaxTagLength;
    assert init.headers[ClientTagHeader][..|TagPrefix|] == TagPrefix;
  }
}
