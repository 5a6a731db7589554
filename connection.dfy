/**
 * The connection settings of `BasicHttpConnection` and the two members that
 * turn them, together with an action name, into the URI a request is sent to.
 */
module Connection {
  import opened Wrappers
  import opened Strings

  /**
   * The path an action contributes after the base and the prefix: the action
   * itself when it already starts with "/", otherwise the action after one "/".
   */
  function Rooted(action: string): (r: string)
    ensures StartsWith(r, "/") && EndsWith(r, action)
    ensures |r| == |action| + (if StartsWith(action, "/") then 0 else 1)
    ensures StartsWith(action, "/") ==> r == action
  {
    if StartsWith(action, "/") then action else "/" + action
  }

  /** Rooting an action twice adds nothing more. */
  lemma RootedIdempotent(action: string)
    ensures Rooted(Rooted(action)) == Rooted(action)
  {
  }

  class BasicHttpConnection {
    /** Host or full URL; null until set. */
    var Address: Option<string>
    /** Optional path segment placed between the base and the action. */
    var Prefix: Option<string>
    /** Selects "https://" rather than "http://" for an address without a scheme. */
    var IsSecure: bool

    constructor ()
      ensures Address == None && Prefix == None && !IsSecure
    {
      Address, Prefix, IsSecure := None, None, false;
    }

    constructor WithAddress(address: Option<string>)
      ensures Address == address && Prefix == None && !IsSecure
    {
      Address, Prefix, IsSecure := address, None, false;
    }

    constructor WithAddressAndPrefix(address: Option<string>, prefix: Option<string>)
      ensures Address == address && Prefix == prefix && !IsSecure
    {
      Address, Prefix, IsSecure := address, prefix, false;
    }

    /**
     * Gives `address` a scheme when it has none. The test is a literal prefix
     * test on "http", so any address beginning with those four letters is
     * returned as it is, and a null address throws.
     */
    function ResolveHttps(address: Option<string>): (r: Result<string>)
      reads this
      ensures address.None? <==> r == Thrown(NullReference)
      ensures r.Ok? ==> StartsWith(r.value, "http") && EndsWith(r.value, address.value)
      ensures r.Ok? ==> (r.value == address.value <==> StartsWith(address.value, "http"))
    {
      if address.None? then Thrown(NullReference)
      else if StartsWith(address.value, "https") || StartsWith(address.value, "http") then Ok(address.value)
      else if IsSecure then Ok("https://" + address.value)
      else Ok("http://" + address.value)
    }

    /** An address without the "http" prefix gets "https://" exactly when the connection is secure. */
    lemma SchemeChosenByIsSecure(address: string)
      requires !StartsWith(address, "http")
      ensures IsSecure ==> ResolveHttps(Some(address)) == Ok("https://" + address)
      ensures !IsSecure ==> ResolveHttps(Some(address)) == Ok("http://" + address)
    {
    }

    /** Resolving an already resolved address changes nothing. */
    lemma ResolveHttpsIdempotent(address: string)
      ensures ResolveHttps(Some(ResolveHttps(Some(address)).value)) == ResolveHttps(Some(address))
    {
    }

    /** "httpbin.org" counts as having a scheme, so no "http://" is put in front of it. */
    lemma LiteralSchemeTest()
      ensures ResolveHttps(Some("httpbin.org")) == Ok("httpbin.org")
    {
      assert "httpbin.org"[..4] == "http";
    }

    /** What the prefix contributes to the URI: nothing when null or empty, else "/" and the prefix. */
    function PrefixSegment(): (r: string)
      reads this
      ensures r == "" <==> IsNullOrEmpty(Prefix)
      ensures r != "" ==> StartsWith(r, "/") && EndsWith(r, Prefix.value) && |r| == |Prefix.value| + 1
    {
      if IsNullOrEmpty(Prefix) then "" else "/" + Prefix.value
    }

    /**
     * The URI for `action`: the resolved address, then the prefix segment, then
     * a "/" unless the action starts with one, then the action.
     */
    function OnUriCreating(action: Option<string>): (r: Result<string>)
      reads this
      ensures r.Ok? <==> Address.Some? && action.Some?
      ensures r.Thrown? ==> r.error == NullReference
      ensures r.Ok? ==> StartsWith(r.value, ResolveHttps(Address).value) && EndsWith(r.value, action.value)
    {
      match ResolveHttps(Address)
      case Thrown(e) => Thrown(e)
      case Ok(base) =>
        var uri := if IsNullOrEmpty(Prefix) then base else base + "/" + Prefix.value;
        if action.None? then Thrown(NullReference)
        else
          var uri' := if StartsWith(action.value, "/") then uri else uri + "/";
          Ok(uri' + action.value)
    }

    /** The URI is the resolved address, the prefix segment and the rooted action, in that order. */
    lemma UriConcatenation(action: string)
      requires Address.Some?
      ensures OnUriCreating(Some(action)) == Ok(ResolveHttps(Address).value + PrefixSegment() + Rooted(action))
    {
      var base := ResolveHttps(Address).value;
      var uri := if IsNullOrEmpty(Prefix) then base else base + "/" + Prefix.value;
      assert uri == base + PrefixSegment();
      if !StartsWith(action, "/") {
        assert uri + "/" + action == uri + ("/" + action);
      }
    }

    /**
     * The URI splits into the resolved address, the prefix segment and the
     * rooted action.
     */
    lemma UriLayout(action: string)
      requires Address.Some?
      ensures var base := ResolveHttps(Address).value;
              var uri := OnUriCreating(Some(action)).value;
              && |uri| == |base| + |PrefixSegment()| + |Rooted(action)|
              && uri[..|base|] == base
              && uri[|base|..|base| + |PrefixSegment()|] == PrefixSegment()
              && uri[|base| + |PrefixSegment()|..] == Rooted(action)
    {
      var base, segment, path := ResolveHttps(Address).value, PrefixSegment(), Rooted(action);
      UriConcatenation(action);
      var uri := base + segment + path;
      assert uri[..|base|] == base;
      assert uri[|base|..|base| + |segment|] == segment;
      assert uri[|base| + |segment|..] == path;
    }

    /**
     * The length of the URI: the base, the prefix with its "/", one separator
     * unless the action starts with "/", and the action.
     */
    lemma UriLength(action: string)
      requires Address.Some?
      ensures |OnUriCreating(Some(action)).value|
           == |ResolveHttps(Address).value|
            + (if IsNullOrEmpty(Prefix) then 0 else 1 + |Prefix.value|)
            + (if StartsWith(action, "/") then 0 else 1)
            + |action|
    {
      UriLayout(action);
    }

    /** A non-empty prefix appears, after a "/", right after the resolved address. */
    lemma PrefixFollowsBase(action: string)
      requires Address.Some? && !IsNullOrEmpty(Prefix)
      ensures var base := ResolveHttps(Address).value;
              var uri := OnUriCreating(Some(action)).value;
              && |base| + 1 + |Prefix.value| <= |uri|
              && uri[|base|..|base| + 1 + |Prefix.value|] == "/" + Prefix.value
    {
      UriLayout(action);
    }

    /**
     * Two actions give the same URI exactly when they agree once rooted, so
     * "Values" and "/Values" name the same resource.
     */
    lemma SameUriIffSameRootedAction(a: string, b: string)
      requires Address.Some?
      ensures OnUriCreating(Some(a)) == OnUriCreating(Some(b)) <==> Rooted(a) == Rooted(b)
    {
      var head := ResolveHttps(Address).value + PrefixSegment();
      var ra, rb := Rooted(a), Rooted(b);
      UriConcatenation(a);
      UriConcatenation(b);
      if head + ra == head + rb {
        assert (head + ra)[|head|..] == ra;
        assert (head + rb)[|head|..] == rb;
      }
    }

    /** Address "example.com", plain HTTP, prefix "api", action "Values". */
    lemma PlainAddressWithPrefix()
      requires Address == Some("example.com") && !IsSecure && Prefix == Some("api")
      ensures OnUriCreating(Some("Values")) == Ok("http://example.com/api/Values")
    {
      assert "example.com"[..4] == "exam" && "example.com"[..5] == "examp";
      assert "http://" + "example.com" == "http://example.com";
      assert ResolveHttps(Address) == Ok("http://example.com");
      assert "Values"[..1] == "V";
      assert "http://example.com" + "/" + "api" + "/" + "Values" == "http://example.com/api/Values";
    }

    /** Address "https://example.com", empty prefix, action "/Values". */
    lemma FullAddressRootedAction()
      requires Address == Some("https://example.com") && Prefix == Some("")
      ensures OnUriCreating(Some("/Values")) == Ok("https://example.com/Values")
    {
      assert "https://example.com"[..4] == "http";
      assert ResolveHttps(Address) == Ok("https://example.com");
      assert "/Values"[..1] == "/";
      assert "https://example.com" + "/Values" == "https://example.com/Values";
    }
  }
}
