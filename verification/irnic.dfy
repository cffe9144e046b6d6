/** The deterministic part of the `IrNic` client: the reseller-handle rule of
    the constructor, the argument checks `domainCreate`, `domainRenew`,
    `domainUpdateContact` and `domainUpdateNS` make before any request, the
    reshaping of nameserver lists, the expiry day `domainRenew` derives, and
    how `getResponseMeta` picks the error field of a flattened response.

    What the registry answers (`domainInfo`, `_checkPermissibleContacts`)
    enters as parameters; every operation returns the request it would send
    instead of sending it. */
module IrNic {
  import opened Results
  import opened Strings
  import opened PhpArrays
  import Arrays

  // --------------------------------------------------------- constructor

  const Suffix := "-irnic"
  const HandleError := "resseler_nic_handle must end with -irnic"

  datatype Config = Config(token: string, password: string, handle: string, reseller: string)

  /** `__construct` as written: the reseller handle must contain `-irnic`
      somewhere, and the NIC handle is the reseller handle with every
      `-irnic` removed. */
  function Construct(token: string, password: string, reseller: string): (r: Result<Config>)
    ensures r.Err? <==> !Contains(reseller, Suffix)
    ensures r.Err? ==> r.message == HandleError
    ensures r.Ok? ==> r.value.token == token && r.value.password == password && r.value.reseller == reseller
    ensures r.Ok? ==> |r.value.handle| < |reseller|
  {
    if !Contains(reseller, Suffix) then Err(HandleError)
    else
      ReplaceShrinks(reseller, Suffix);
      Ok(Config(token, password, ReplaceAll(reseller, Suffix, ""), reseller))
  }

  /** Deleting a search string that occurs makes the text shorter. */
  lemma ReplaceShrinks(s: string, d: string)
    requires d != [] && Contains(s, d)
    ensures |ReplaceAll(s, d, "")| < |s|
  {
    var q := Find(s, d, 0).value;
    ReplaceShrinksFrom(s, d, q);
  }

  lemma {:induction false} ReplaceShrinksFrom(s: string, d: string, q: nat)
    requires d != [] && OccursAt(s, d, q)
    ensures |ReplaceFrom(s, d, "")| < |s|
    decreases |s|
  {
    ReplaceNoLonger(s[1..], d);
    assert s[..|d|] == s[0..|d|];
    if IsPrefix(d, s) {
      ReplaceNoLonger(s[|d|..], d);
    } else {
      assert q > 0;
      assert OccursAt(s[1..], d, q - 1) by {
        assert s[1..][q - 1..q - 1 + |d|] == s[q..q + |d|];
      }
      ReplaceShrinksFrom(s[1..], d, q - 1);
    }
  }

  lemma {:induction false} ReplaceNoLonger(s: string, d: string)
    requires d != []
    ensures |ReplaceFrom(s, d, "")| <= |s|
    decreases |s|
  {
    if s != [] {
      ReplaceNoLonger(s[1..], d);
      if IsPrefix(d, s) {
        ReplaceNoLonger(s[|d|..], d);
      }
    }
  }

  /** A text without the first character of `d`, followed by `d`, has its
      first occurrence of `d` right there. */
  lemma FirstAfter(x: string, d: string, y: string)
    requires d != [] && d[0] !in x
    ensures Find(x + d + y, d, 0) == Some(|x|)
  {
    var s := x + d + y;
    assert s[|x|..|x| + |d|] == d;
    forall k | 0 <= k < |x| ensures !OccursAt(s, d, k) {
      assert s[k..k + |d|][0] == s[k] == x[k];
    }
    FindAt(s, d, 0, |x|);
  }

  /** The documented case: a handle followed by `-irnic` is accepted, and
      `handle` is what precedes the suffix. */
  lemma ConstructHandle(token: string, password: string, h: string)
    requires '-' !in h
    ensures Construct(token, password, h + Suffix) == Ok(Config(token, password, h, h + Suffix))
  {
    FirstAfter(h, Suffix, "");
    assert h + Suffix + "" == h + Suffix;
    ReplaceOnce(h, Suffix, "", "");
    assert h + "" + "" == h;
  }

  /** The check is a substring test: `-irnic` in the middle is accepted too,
      and the text after it is kept in `handle`. */
  lemma ConstructAcceptsInfix(token: string, password: string, x: string, y: string)
    requires '-' !in x && '-' !in y && y != []
    ensures !IsSuffix(Suffix, x + Suffix + y)
    ensures Construct(token, password, x + Suffix + y) == Ok(Config(token, password, x + y, x + Suffix + y))
  {
    var s := x + Suffix + y;
    FirstAfter(x, Suffix, y);
    ReplaceOnce(x, Suffix, "", y);
    assert x + "" + y == x + y;
    NotSuffix(x, y);
  }

  lemma NotSuffix(x: string, y: string)
    requires '-' !in x && '-' !in y && y != []
    ensures !IsSuffix(Suffix, x + Suffix + y)
  {
    var s := x + Suffix + y;
    var p := |s| - |Suffix|;
    assert s[p] != '-' by {
      if p < |x| + |Suffix| {
        assert s[p] == Suffix[p - |x|];
      } else {
        assert s[p] == y[p - |x| - |Suffix|];
      }
    }
    assert s[p..][0] == s[p];
  }

  /** `__construct` with the test its message and documentation describe:
      the reseller handle must END with `-irnic`, and `handle` is what
      precedes it. */
  function ConstructSuffix(token: string, password: string, reseller: string): (r: Result<Config>)
    ensures r.Err? <==> !IsSuffix(Suffix, reseller)
    ensures r.Err? ==> r.message == HandleError
    ensures r.Ok? ==> r.value.token == token && r.value.password == password && r.value.reseller == reseller
    ensures r.Ok? ==> r.value.handle + Suffix == reseller
  {
    if !IsSuffix(Suffix, reseller) then Err(HandleError)
    else
      var h := reseller[..|reseller| - |Suffix|];
      assert reseller == h + reseller[|reseller| - |Suffix|..];
      Ok(Config(token, password, h, reseller))
  }

  /** On handles of the documented shape both versions agree; on an infix
      `-irnic` the suffix test rejects what the substring test lets in. */
  lemma ConstructSuffixAgrees(token: string, password: string, h: string, x: string, y: string)
    requires '-' !in h && '-' !in x && '-' !in y && y != []
    ensures ConstructSuffix(token, password, h + Suffix) == Construct(token, password, h + Suffix)
    ensures ConstructSuffix(token, password, x + Suffix + y) == Err(HandleError)
    ensures Construct(token, password, x + Suffix + y).Ok?
  {
    ConstructHandle(token, password, h);
    ConstructAcceptsInfix(token, password, x, y);
    var r := ConstructSuffix(token, password, h + Suffix);
    assert IsSuffix(Suffix, h + Suffix) by {
      assert (h + Suffix)[|h|..] == Suffix;
    }
    assert r.value.handle + Suffix == h + Suffix;
    assert r.value.handle == (h + Suffix)[..|h|] == h;
  }

  // ---------------------------------------------------------- validation

  const PeriodError := "Domain period is must be 12 or 60"
  const NsCountError := "$ns must be between 2 and 4 nameservers"
  const NotFoundError := "Domain not found"

  /** `in_array($period, [12, 60])`. */
  function CheckPeriod(period: int): (r: Result<()>)
    ensures r.Ok? <==> period == 12 || period == 60
    ensures r.Err? ==> r.message == PeriodError
  {
    if period in [12, 60] then Ok(()) else Err(PeriodError)
  }

  /** `count($ns)` between 2 and 4. */
  function CheckNsCount(ns: PArray): (r: Result<()>)
    ensures r.Ok? <==> 2 <= |ns| <= 4
    ensures r.Err? ==> r.message == NsCountError
  {
    if |ns| < 2 || |ns| > 4 then Err(NsCountError) else Ok(())
  }

  function NotSetError(name: string): string {
    "$contacts['" + name + "'] is not set"
  }

  function EmptyError(name: string): string {
    "$contacts['" + name + "'] is empty"
  }

  /** The contact roles `domainCreate` demands. None is numeric, so each is
      a string key. */
  const CreateRoles := ["holder", "admin", "tech", "bill"]

  /** One iteration of the contact loop of `domainCreate`. */
  function RoleCheck(contacts: PArray, name: string): (r: Result<()>)
    ensures r.Ok? <==> KeyExists(contacts, StrKey(name)) && !IsEmpty(Index(contacts, StrKey(name)))
    ensures r == Err(NotSetError(name)) <==> !KeyExists(contacts, StrKey(name))
    ensures r.Err? ==> r.message in {NotSetError(name), EmptyError(name)}
  {
    assert |NotSetError(name)| != |EmptyError(name)|;
    if !KeyExists(contacts, StrKey(name)) then Err(NotSetError(name))
    else if IsEmpty(Index(contacts, StrKey(name))) then Err(EmptyError(name))
    else Ok(())
  }

  /** The contact loop of `domainCreate`: the first role missing or empty
      is reported. */
  function CheckRoles(contacts: PArray, roles: seq<string>): (r: Result<()>)
    ensures r.Ok? <==> forall i :: 0 <= i < |roles| ==> RoleCheck(contacts, roles[i]).Ok?
    ensures r.Err? ==> exists i :: 0 <= i < |roles| && r == RoleCheck(contacts, roles[i])
                                   && forall j :: 0 <= j < i ==> RoleCheck(contacts, roles[j]).Ok?
    decreases |roles|
  {
    if roles == [] then Ok(())
    else if RoleCheck(contacts, roles[0]).Err? then RoleCheck(contacts, roles[0])
    else
      var r := CheckRoles(contacts, roles[1..]);
      FirstRoleFailureShift(contacts, roles, r);
      r
  }

  lemma FirstRoleFailureShift(contacts: PArray, roles: seq<string>, r: Result<()>)
    requires roles != [] && RoleCheck(contacts, roles[0]).Ok?
    requires r.Err? ==> exists i :: 0 <= i < |roles[1..]| && r == RoleCheck(contacts, roles[1..][i])
                                    && forall j :: 0 <= j < i ==> RoleCheck(contacts, roles[1..][j]).Ok?
    ensures r.Err? ==> exists i :: 0 <= i < |roles| && r == RoleCheck(contacts, roles[i])
                                   && forall j :: 0 <= j < i ==> RoleCheck(contacts, roles[j]).Ok?
  {
    if r.Err? {
      var i :| 0 <= i < |roles[1..]| && r == RoleCheck(contacts, roles[1..][i])
               && forall j :: 0 <= j < i ==> RoleCheck(contacts, roles[1..][j]).Ok?;
      forall j | 0 <= j < i + 1 ensures RoleCheck(contacts, roles[j]).Ok? {
        if j > 0 {
          assert roles[j] == roles[1..][j - 1];
        }
      }
      assert r == RoleCheck(contacts, roles[i + 1]);
    }
  }

  // ---------------------------------------------------------- nameservers

  /** One entry of the request's nameserver list; `hostAddr` is `None` where
      the PHP code stores `false`. The `type` field, computed by `getTypeIP`,
      is not part of this model. */
  datatype NameServer = NameServer(hostName: Value, hostAddr: Option<Value>)

  /** The loop body shared by `domainCreate` and `domainUpdateNS`. */
  function Shape(e: Entry): NameServer {
    if IsNumericKey(e.key) then NameServer(e.val, None)
    else NameServer(Scalar(e.key.s), Some(e.val))
  }

  /** The nameserver loop: a numeric key means the value is the host name
      and there is no address; otherwise the key is the host name and the
      value its address. */
  function NormalizeNameServers(ns: PArray): (r: seq<NameServer>)
    ensures |r| == |ns|
    ensures forall i :: 0 <= i < |ns| && IsNumericKey(ns[i].key) ==> r[i] == NameServer(ns[i].val, None)
    ensures forall i :: 0 <= i < |ns| && !IsNumericKey(ns[i].key)
                        ==> r[i] == NameServer(Scalar(ns[i].key.s), Some(ns[i].val))
    decreases |ns|
  {
    if ns == [] then []
    else
      var init := ns[..|ns| - 1];
      assert forall i :: 0 <= i < |init| ==> init[i] == ns[i];
      NormalizeNameServers(init) + [Shape(ns[|ns| - 1])]
  }

  /** A plain list of host names becomes host names without addresses. */
  lemma NormalizeList(ns: PArray)
    requires IsList(ns)
    ensures var r := NormalizeNameServers(ns);
            forall i :: 0 <= i < |ns| ==> r[i].hostName == ns[i].val && r[i].hostAddr.None?
  {
  }

  /** A map from host names that are not numbers to addresses keeps both. */
  lemma NormalizeNamed(ns: PArray)
    requires forall i :: 0 <= i < |ns| ==> ns[i].key.StrKey? && !IsNumericString(ns[i].key.s)
    ensures var r := NormalizeNameServers(ns);
            forall i :: 0 <= i < |ns| ==> r[i].hostName == Scalar(ns[i].key.s) && r[i].hostAddr == Some(ns[i].val)
  {
  }

  /** The loop treats entries one at a time: normalising a concatenation is
      concatenating the normalised parts. */
  lemma {:induction false} NormalizeConcat(a: PArray, b: PArray)
    ensures NormalizeNameServers(a + b) == NormalizeNameServers(a) + NormalizeNameServers(b)
    decreases |b|
  {
    if b != [] {
      var b0 := b[..|b| - 1];
      assert (a + b)[..|a + b| - 1] == a + b0;
      assert (a + b)[|a + b| - 1] == b[|b| - 1];
      NormalizeConcat(a, b0);
    } else {
      assert a + b == a;
    }
  }

  // ------------------------------------------------------------ requests

  datatype CreateRequest = CreateRequest(domain: string, period: int, contacts: PArray, ns: seq<NameServer>)

  /** `domainCreate` up to the request it sends. `rejected` stands for the
      outcome of `_checkPermissibleContacts`: `None` when it returns an empty
      array, otherwise the `var_export` text of what it returned. */
  function DomainCreate(domain: string, period: int, contacts: PArray, rejected: Option<string>, ns: PArray): (r: Result<CreateRequest>)
    ensures r.Ok? <==> && (period == 12 || period == 60)
                       && (forall i :: 0 <= i < |CreateRoles| ==>
                             KeyExists(contacts, StrKey(CreateRoles[i])) && !IsEmpty(Index(contacts, StrKey(CreateRoles[i]))))
                       && rejected.None?
                       && 2 <= |ns| <= 4
    ensures r.Ok? ==> r.value.domain == domain && r.value.period == period && r.value.contacts == contacts
    ensures r.Ok? ==> |r.value.ns| == |ns|
    ensures period != 12 && period != 60 ==> r == Err(PeriodError)
    ensures (period == 12 || period == 60) && CheckRoles(contacts, CreateRoles).Err?
            ==> r == Err(CheckRoles(contacts, CreateRoles).message)
    ensures (period == 12 || period == 60) && CheckRoles(contacts, CreateRoles).Ok? && rejected.Some?
            ==> r == Err(rejected.value)
  {
    var _ :- CheckPeriod(period);
    var _ :- CheckRoles(contacts, CreateRoles);
    if rejected.Some? then Err(rejected.value)
    else
      var _ :- CheckNsCount(ns);
      Ok(CreateRequest(domain, period, contacts, NormalizeNameServers(ns)))
  }

  /** The roles are checked in order holder, admin, tech, bill, and for each
      presence before emptiness: a request without a holder is refused for
      that, whatever else is wrong with the contacts. */
  lemma CreateNeedsHolder(domain: string, period: int, contacts: PArray, rejected: Option<string>, ns: PArray)
    requires period == 12 || period == 60
    requires !KeyExists(contacts, StrKey("holder"))
    ensures DomainCreate(domain, period, contacts, rejected, ns) == Err("$contacts['holder'] is not set")
  {
    assert CheckRoles(contacts, CreateRoles) == Err(NotSetError("holder")) by {
      assert CreateRoles[0] == "holder";
      assert RoleCheck(contacts, "holder") == Err(NotSetError("holder"));
    }
    assert NotSetError("holder") == "$contacts['holder'] is not set";
  }

  /** Every accepted request lists the nameservers in the order given. */
  lemma CreateKeepsNameServers(domain: string, period: int, contacts: PArray, ns: PArray)
    requires DomainCreate(domain, period, contacts, None, ns).Ok?
    ensures var q := DomainCreate(domain, period, contacts, None, ns).value;
            forall i :: 0 <= i < |ns| ==> q.ns[i] == Shape(ns[i])
  {
  }

  // ------------------------------------------------------ update contacts

  const UpdateRoles := ["holder", "admin", "tech", "bill", "reseller"]

  /** `implode($sep, $parts)`. */
  function Join(parts: seq<string>, sep: string): (r: string)
    ensures parts == [] ==> r == ""
    ensures |parts| == 1 ==> r == parts[0]
    decreases |parts|
  {
    if parts == [] then ""
    else if |parts| == 1 then parts[0]
    else parts[0] + sep + Join(parts[1..], sep)
  }

  function UnsupportedError(): string {
    "this handler only supports " + Join(UpdateRoles, ", ")
  }

  /** `array_search($key, $roles)` under PHP 8's loose comparison. The roles
      are not numeric strings, so a string key matches by equal text and an
      integer key, whose decimal form is numeric, matches none. */
  function ArraySearch(k: Key, roles: seq<string>): (r: Option<nat>)
    ensures r.Some? ==> r.value < |roles| && k == StrKey(roles[r.value])
    ensures r.Some? ==> forall j :: 0 <= j < r.value ==> k != StrKey(roles[j])
    ensures r.None? ==> forall j :: 0 <= j < |roles| ==> k != StrKey(roles[j])
    decreases |roles|
  {
    if roles == [] then None
    else if k == StrKey(roles[0]) then Some(0)
    else match ArraySearch(k, roles[1..])
      case None => None
      case Some(i) => Some(i + 1)
  }

  /** How the key test reads `array_search`'s answer: as written it negates
      the answer, so the index 0 counts as not found; `InArray` is the test
      the error message describes. */
  datatype KeyTest = AsWritten | InArray

  predicate Supported(test: KeyTest, k: Key) {
    match ArraySearch(k, UpdateRoles)
    case None => false
    case Some(i) => test.InArray? || i != 0
  }

  /** One iteration of the loop of `domainUpdateContact`. PHP keys are
      unique, so `$contacts[$key]` is the entry's own value. */
  function ContactCheck(test: KeyTest, e: Entry): (r: Result<()>)
    ensures r.Ok? <==> Supported(test, e.key) && !IsEmpty(e.val)
    ensures !Supported(test, e.key) ==> r == Err(UnsupportedError())
  {
    if !Supported(test, e.key) then Err(UnsupportedError())
    else if IsEmpty(e.val) then Err(EmptyError(e.key.s))
    else Ok(())
  }

  /** The loop of `domainUpdateContact`: the first entry that fails is
      reported. */
  function CheckContacts(contacts: PArray, test: KeyTest): (r: Result<()>)
    ensures r.Ok? <==> forall i :: 0 <= i < |contacts| ==> Supported(test, contacts[i].key) && !IsEmpty(contacts[i].val)
    ensures r.Err? ==> exists i :: 0 <= i < |contacts| && r == ContactCheck(test, contacts[i])
                                   && forall j :: 0 <= j < i ==> ContactCheck(test, contacts[j]).Ok?
    decreases |contacts|
  {
    if contacts == [] then Ok(())
    else if ContactCheck(test, contacts[0]).Err? then ContactCheck(test, contacts[0])
    else
      var r := CheckContacts(contacts[1..], test);
      FirstContactFailureShift(contacts, test, r);
      r
  }

  lemma FirstContactFailureShift(contacts: PArray, test: KeyTest, r: Result<()>)
    requires contacts != [] && ContactCheck(test, contacts[0]).Ok?
    requires r.Err? ==> exists i :: 0 <= i < |contacts[1..]| && r == ContactCheck(test, contacts[1..][i])
                                    && forall j :: 0 <= j < i ==> ContactCheck(test, contacts[1..][j]).Ok?
    ensures r.Err? ==> exists i :: 0 <= i < |contacts| && r == ContactCheck(test, contacts[i])
                                   && forall j :: 0 <= j < i ==> ContactCheck(test, contacts[j]).Ok?
  {
    if r.Err? {
      var i :| 0 <= i < |contacts[1..]| && r == ContactCheck(test, contacts[1..][i])
               && forall j :: 0 <= j < i ==> ContactCheck(test, contacts[1..][j]).Ok?;
      forall j | 0 <= j < i + 1 ensures ContactCheck(test, contacts[j]).Ok? {
        if j > 0 {
          assert contacts[j] == contacts[1..][j - 1];
        }
      }
      assert r == ContactCheck(test, contacts[i + 1]);
    }
  }

  /** As written, the accepted keys are admin, tech, bill and reseller:
      `holder` is found at index 0, which the negation reads as not found. */
  lemma SupportedAsWritten(k: Key)
    ensures Supported(AsWritten, k) <==> k.StrKey? && k.s in ["admin", "tech", "bill", "reseller"]
  {
    assert UpdateRoles[0] == "holder";
    if k.StrKey? && k.s in ["admin", "tech", "bill", "reseller"] {
      assert k.s != "holder";
      assert k == StrKey(UpdateRoles[1]) || k == StrKey(UpdateRoles[2])
          || k == StrKey(UpdateRoles[3]) || k == StrKey(UpdateRoles[4]);
    }
  }

  /** With the test the message describes, exactly the five listed roles
      are accepted. */
  lemma SupportedInArray(k: Key)
    ensures Supported(InArray, k) <==> k.StrKey? && k.s in UpdateRoles
  {
    if k.StrKey? && k.s in UpdateRoles {
      var i :| 0 <= i < |UpdateRoles| && UpdateRoles[i] == k.s;
      assert k == StrKey(UpdateRoles[i]);
    }
  }

  /** As written: a request that updates the holder is always refused with
      the message that lists `holder` as supported. */
  lemma HolderRejected(contacts: PArray)
    requires contacts != [] && contacts[0].key == StrKey("holder")
    ensures CheckContacts(contacts, AsWritten) == Err(UnsupportedError())
  {
    SupportedAsWritten(contacts[0].key);
  }

  /** With the corrected test a non-empty holder handle passes. */
  lemma HolderAccepted(h: string)
    requires h != "" && h != "0"
    ensures CheckContacts([Entry(StrKey("holder"), Scalar(h))], InArray) == Ok(())
  {
    SupportedInArray(StrKey("holder"));
  }

  datatype ContactUpdate = ContactUpdate(domain: string, contacts: PArray)

  /** `domainUpdateContact` up to the request it sends, with the key test
      the error message describes. */
  function DomainUpdateContact(domain: string, contacts: PArray): (r: Result<ContactUpdate>)
    ensures r.Ok? <==> forall i :: 0 <= i < |contacts| ==> contacts[i].key.StrKey? && contacts[i].key.s in UpdateRoles
                                                           && !IsEmpty(contacts[i].val)
    ensures r.Ok? ==> r.value == ContactUpdate(domain, contacts)
  {
    forall k: Key ensures Supported(InArray, k) <==> k.StrKey? && k.s in UpdateRoles {
      SupportedInArray(k);
    }
    var _ :- CheckContacts(contacts, InArray);
    Ok(ContactUpdate(domain, contacts))
  }

  // --------------------------------------------------- update nameservers

  datatype NsUpdate = NsUpdate(domain: string, previous: Value, next: seq<NameServer>)

  /** `domainUpdateNS` up to the request it sends. `infoCode` and `infoNs`
      are the result code and the `ns` field of `domainInfo($domain)`, which
      is only consulted once the count has passed. */
  function DomainUpdateNS(domain: string, ns: PArray, infoCode: int, infoNs: Value): (r: Result<NsUpdate>)
    ensures r.Ok? <==> 2 <= |ns| <= 4 && infoCode == 1000
    ensures !(2 <= |ns| <= 4) ==> r == Err(NsCountError)
    ensures 2 <= |ns| <= 4 && infoCode != 1000 ==> r == Err(NotFoundError)
    ensures r.Ok? ==> r.value.domain == domain && r.value.previous == infoNs && |r.value.next| == |ns|
  {
    var _ :- CheckNsCount(ns);
    var shaped := NormalizeNameServers(ns);
    if infoCode != 1000 then Err(NotFoundError)
    else Ok(NsUpdate(domain, infoNs, shaped))
  }

  /** `domainCreate` and `domainUpdateNS` send the same nameserver list for
      the same input. */
  lemma SameNameServers(domain: string, period: int, contacts: PArray, ns: PArray, infoNs: Value)
    requires DomainCreate(domain, period, contacts, None, ns).Ok?
    ensures DomainUpdateNS(domain, ns, 1000, infoNs).Ok?
    ensures DomainUpdateNS(domain, ns, 1000, infoNs).value.next == DomainCreate(domain, period, contacts, None, ns).value.ns
  {
  }

  // --------------------------------------------------------------- renew

  /** `explode('T', $exDate)[0]`: the text before the first `T`, or all of
      it when there is none. */
  function ExpiryDay(exDate: string): (r: string)
    ensures IsPrefix(r, exDate)
    ensures 'T' !in r
    ensures r == exDate || exDate[|r|] == 'T'
  {
    match Find(exDate, "T", 0)
    case None =>
      assert forall k :: 0 <= k < |exDate| ==> exDate[k] != 'T' by {
        forall k | 0 <= k < |exDate| ensures exDate[k] != 'T' {
          assert !OccursAt(exDate, "T", k);
          assert exDate[k..k + 1] == [exDate[k]];
        }
      }
      exDate
    case Some(i) =>
      var r := exDate[..i];
      assert exDate[i..i + 1] == "T";
      assert exDate[i] == exDate[i..i + 1][0];
      assert forall k :: 0 <= k < i ==> r[k] != 'T' by {
        forall k | 0 <= k < i ensures r[k] != 'T' {
          assert !OccursAt(exDate, "T", k);
          assert exDate[k..k + 1] == [exDate[k]];
        }
      }
      r
  }

  /** A registry timestamp `date T time` yields its date. */
  lemma ExpiryDayOf(d: string, t: string)
    requires 'T' !in d
    ensures ExpiryDay(d + "T" + t) == d
  {
    var s := d + "T" + t;
    var r := ExpiryDay(s);
    assert s[|d|] == 'T';
    assert forall i :: 0 <= i < |r| ==> s[i] == r[i] != 'T';
    assert |r| <= |d|;
    assert r != s;
    assert s[|r|] == 'T';
    assert forall i :: 0 <= i < |d| ==> s[i] == d[i] != 'T';
    assert |r| == |d|;
    assert r == s[..|d|] == d;
  }

  datatype Renewal =
    | Renew(domain: string, period: int, curExpDate: string)
      /** `domainInfo`'s response is handed back as the result. */
    | InfoReturned

  /** `domainRenew` up to the request it sends. `infoCode` and `infoExDate`
      are the result code and expiry date of `domainInfo($domain)`, consulted
      only when no current expiry date is given. */
  function DomainRenew(domain: string, period: int, curExpDate: Option<string>, infoCode: int, infoExDate: string): (r: Result<Renewal>)
    ensures r.Err? <==> period != 12 && period != 60
    ensures r.Err? ==> r.message == PeriodError
    ensures r == Ok(InfoReturned) <==> (period == 12 || period == 60) && curExpDate.None? && infoCode != 1000
    ensures r.Ok? && curExpDate.Some? ==> r.value == Renew(domain, period, curExpDate.value)
    ensures r.Ok? && r.value.Renew? && curExpDate.None? ==>
              IsPrefix(r.value.curExpDate, infoExDate) && 'T' !in r.value.curExpDate
  {
    var _ :- CheckPeriod(period);
    match curExpDate
    case Some(d) => Ok(Renew(domain, period, d))
    case None =>
      if infoCode != 1000 then Ok(InfoReturned)
      else Ok(Renew(domain, period, ExpiryDay(infoExDate)))
  }

  /** Without a given date, the renewal uses the day of the registry's
      expiry timestamp. */
  lemma RenewUsesExpiryDay(domain: string, period: int, d: string, t: string)
    requires period == 12 || period == 60
    requires 'T' !in d
    ensures DomainRenew(domain, period, None, 1000, d + "T" + t) == Ok(Renew(domain, period, d))
  {
    ExpiryDayOf(d, t);
  }

  // ------------------------------------------------------- response meta

  const CodeKey := "epp.response.result.@attributes.code"
  const MessageKey := "epp.response.result.msg"
  const ValueKey := "epp.response.result.value"
  const ExtValueKey := "epp.response.result.extValue.*"
  const ClientTrKey := "epp.response.trID.clTRID"
  const ServerTrKey := "epp.response.trID.svTRID"

  /** The prefix the wildcard lookup collects under. */
  const ExtValuePrefix := "epp.response.result.extValue."

  /** `getResponseMeta` on a flattened response. */
  datatype Meta = Meta(code: Value, message: Value, errors: Value, clientTrId: Value, serverTrId: Value)

  function ResponseMeta(response: PArray): (r: Result<Meta>)
    ensures r.Ok? ==> r.value.code == Index(response, StrKey(CodeKey))
    ensures r.Ok? ==> r.value.clientTrId == Index(response, StrKey(ClientTrKey))
    ensures r.Ok? ==> r.value.serverTrId == Index(response, StrKey(ServerTrKey))
  {
    var errors :- Arrays.Get(ValueKey, response, Null);
    var errors' :- if errors == Null then Arrays.Get(ExtValueKey, response, Null) else Ok(errors);
    Ok(Meta(Index(response, StrKey(CodeKey)), Index(response, StrKey(MessageKey)), errors',
            Index(response, StrKey(ClientTrKey)), Index(response, StrKey(ServerTrKey))))
  }

  lemma ValueKeyIsText()
    ensures !Arrays.IsWildcard(ValueKey) && NormalizeKey(ValueKey) == StrKey(ValueKey)
  {
    NormalizeKeepsText(ValueKey, 0);
    assert ValueKey[|ValueKey| - 2..] != ".*" by {
      assert ValueKey[|ValueKey| - 2..][0] == 'u';
    }
  }

  lemma ExtValueKeyIsWildcard()
    ensures Arrays.IsWildcard(ExtValueKey) && ExtValueKey[..|ExtValueKey| - 1] == ExtValuePrefix
  {
    assert ExtValueKey[|ExtValueKey| - 2..] == ".*";
  }

  /** A non-null `result.value` is the error field. */
  lemma MetaKeepsValue(response: PArray, v: Value)
    requires Lookup(response, StrKey(ValueKey)) == Some(v) && v != Null
    ensures ResponseMeta(response).Ok? && ResponseMeta(response).value.errors == v
  {
    ValueKeyIsText();
  }

  /** When `result.value` is missing or null, the error field is what the
      wildcard lookup collects under `result.extValue.`: the matching
      entries with the prefix cut off, assigned in order (a later entry
      overwrites an earlier one whose stripped key is the same), or null
      when there are none. Without such collisions it is exactly the
      stripped entries. */
  lemma MetaFallsBack(response: PArray)
    requires Index(response, StrKey(ValueKey)) == Null
    requires StringKeyed(response)
    ensures var m := Arrays.Matching(response, ExtValuePrefix);
            ResponseMeta(response) == Ok(Meta(Index(response, StrKey(CodeKey)), Index(response, StrKey(MessageKey)),
                                               if m == [] then Null else Arr(Arrays.SetAll([], Arrays.Stripped(m, ExtValuePrefix))),
                                               Index(response, StrKey(ClientTrKey)), Index(response, StrKey(ServerTrKey))))
    ensures var m := Arrays.Matching(response, ExtValuePrefix);
            UniqueKeys(Arrays.Stripped(m, ExtValuePrefix)) ==>
            ResponseMeta(response) == Ok(Meta(Index(response, StrKey(CodeKey)), Index(response, StrKey(MessageKey)),
                                               if m == [] then Null else Arr(Arrays.Stripped(m, ExtValuePrefix)),
                                               Index(response, StrKey(ClientTrKey)), Index(response, StrKey(ServerTrKey))))
  {
    ValueKeyIsText();
    ExtValueKeyIsWildcard();
    Arrays.GetWildcard(ExtValueKey, response, Null);
  }

  /** The fallback is the only way `getResponseMeta` fails: under
      `strict_types` the wildcard lookup throws on an integer key. */
  lemma MetaFailure(response: PArray)
    ensures ResponseMeta(response).Err? <==>
              Index(response, StrKey(ValueKey)) == Null && exists i :: 0 <= i < |response| && response[i].key.IntKey?
  {
    ValueKeyIsText();
    ExtValueKeyIsWildcard();
  }
}
