/** The objects behind a method table: NymphMethod, and the pair of maps that both sides keep. */
module NymphMethods {
  import opened Bytes
  import opened Values
  import opened Messages
  import opened MethodTable
  import opened NymphMessages
  import opened NymphTypes
  import opened Registry
  import opened Dispatch
  import opened Rpc

  class NymphMethod {
    var name: Name
    var id: nat
    var parameters: seq<TypeCode>
    var returnType: TypeCode
    var isCallback: bool
    var serialized: seq<Byte>

    ghost function View(): Method
      reads this
    {
      Method(name, id, parameters, returnType)
    }

    constructor (name: Name, parameters: seq<TypeCode>, returnType: TypeCode)
      ensures View() == Method(name, 0, parameters, returnType) && !isCallback
    {
      this.name, this.parameters, this.returnType := name, parameters, returnType;
      id, isCallback, serialized := 0, false, [];
    }

    /** Sets the ID and prints the method anew. */
    method SetId(id: nat)
      modifies this
      ensures View() == old(View()).(id := id) && isCallback == old(isCallback) && serialized == Record(View())
    {
      this.id := id;
      serialized := METHOD;
      serialized := serialized + LE(id, 4);
      var length := |name| % 256;
      serialized := serialized + [length];
      serialized := serialized + name;
      length := |parameters| % 256;
      serialized := serialized + [length];
      ghost var head := serialized;
      for i := 0 to length
        invariant View() == old(View()).(id := id) && isCallback == old(isCallback)
        invariant serialized == head + parameters[..i]
      {
        assert parameters[..i + 1] == parameters[..i] + [parameters[i]];
        serialized := serialized + [parameters[i]];
      }
      serialized := serialized + [returnType];
    }

    /** Checks the values against the signature and puts them into a new message. */
    method Call(values: seq<NymphType>, ghost vs: seq<Value>, ghost repr: set<NymphType>)
      returns (ok: bool, msg: NymphMessage, ghost m: Message)
      requires AllAre(values, vs, repr) && forall k :: 0 <= k < |values| ==> values[k].length == Size(vs[k])
      ensures ok <==> PrepareWith(View(), isCallback, vs).Prepared?
      ensures ok <==>
        && |vs| == |parameters|
        && forall i :: 0 <= i < |vs| ==> parameters[i] == TYPE_ANY || TypeOf(vs[i]) == parameters[i]
      ensures ok ==> m == PrepareWith(View(), isCallback, vs).m && fresh(msg) && msg.Building(m, repr, 0)
    {
      PrepareWithIs(View(), isCallback, vs);
      msg := new NymphMessage(id);
      m := Message(id, 0, 0, 0, [], [], Null);
      if |values| != |parameters| { return false, msg, m; }
      if isCallback {
        msg.SetCallback(name, m, {}, 0);
        m := m.(flags := FLAG_CALLBACK, callbackName := name);
      }
      ok, m := AddAll(msg, values, parameters, vs, m, repr);
    }
  }

  /** The loop over the values, into a message that has none yet. */
  method AddAll(msg: NymphMessage, values: seq<NymphType>, parameters: seq<TypeCode>,
                ghost vs: seq<Value>, ghost empty: Message, ghost repr: set<NymphType>)
    returns (ok: bool, ghost m: Message)
    requires |values| == |parameters| && AllAre(values, vs, repr)
    requires forall k :: 0 <= k < |values| ==> values[k].length == Size(vs[k])
    requires msg.Building(empty, repr, 0) && !IsReply(empty.flags) && empty.values == []
    modifies msg
    ensures ok <==> FirstMisfit(parameters, vs, 0) == |vs|
    ensures ok ==> m == empty.(values := vs) && msg.Building(m, repr, 0)
  {
    m := empty;
    for i := 0 to |values|
      invariant m == empty.(values := vs[..i]) && msg.Building(m, repr, 0)
      invariant FirstMisfit(parameters, vs, 0) == FirstMisfit(parameters, vs, i)
    {
      var fits := AddFitting(msg, values[i], parameters[i], vs[i], m, repr);
      if !fits { return false, m; }
      assert vs[..i + 1] == vs[..i] + [vs[i]];
      m := m.(values := vs[..i + 1]);
    }
    assert vs[..|values|] == vs;
    ok := true;
  }

  /** One turn of the loop over the values. */
  method AddFitting(msg: NymphMessage, value: NymphType, param: TypeCode,
                    ghost v: Value, ghost m: Message, ghost repr: set<NymphType>) returns (fits: bool)
    requires Is(value, v, repr) && value.length == Size(v) && msg.Building(m, repr, 0) && !IsReply(m.flags)
    modifies msg
    ensures fits == Fits(param, v)
    ensures fits ==> msg.Building(m.(values := m.values + [v]), repr, 0)
  {
    fits := value.ValueType() == param || param == TYPE_ANY;
    if fits { msg.AddValue(value, v, m, repr, 0); }
  }

  /** A NymphMethod as it is copied into a map: what it is, and how it was printed. */
  datatype Stored = Stored(m: Method, serialized: seq<Byte>)

  /** The maps of NymphRemoteClient on the server, and of a NymphServerInstance on the client. */
  class Methods {
    var methods: map<Name, Stored>
    var ids: map<nat, Stored>    // the entry that the pointer in the source leads to
    var nextMethodId: nat
    ghost var model: Registry

    ghost predicate NamesAre()
      reads this
    {
      && methods.Keys == model.methods.Keys
      && forall n :: n in methods ==> methods[n] == Stored(model.methods[n], Record(model.methods[n]))
    }

    ghost predicate IdsAre()
      reads this
    {
      && ids.Keys == model.ids.Keys
      && forall k :: k in ids ==> k < nextMethodId && ids[k] == Stored(model.ids[k], Record(model.ids[k]))
    }

    /** These maps are `model`, with all methods printed, and the next ID is a new one. */
    ghost predicate Valid()
      reads this
    {
      NamesAre() && IdsAre() && nextMethodId == model.next
    }

    constructor ()
      ensures Valid() && model == EMPTY
    {
      methods, ids, nextMethodId := map[], map[], 0;
      model := EMPTY;
    }

    /** registerMethod of the server, and addMethod of the client. */
    method RegisterMethod(name: Name, parameters: seq<TypeCode>, returnType: TypeCode)
      requires Valid()
      modifies this
      ensures Valid() && model == Register(old(model), name, parameters, returnType)
    {
      var nymphMethod := new NymphMethod(name, parameters, returnType);
      nymphMethod.SetId(nextMethodId);
      if name !in methods {
        var entry := Method(name, nymphMethod.id, parameters, returnType);
        methods := methods[name := Stored(entry, nymphMethod.serialized)];
      }
      ids := ids[nymphMethod.id := methods[name]];
      nextMethodId := nextMethodId + 1;
      model := Register(model, name, parameters, returnType);
    }

    /** removeMethod of the server: an absent name would make it read the end of the map. */
    method RemoveMethod(name: Name)
      requires Valid() && name in methods
      modifies this
      ensures Valid() && model == Remove(old(model), name)
    {
      var id := methods[name].m.id;
      methods := methods - {name};
      if id in ids {
        ids := ids - {id};
      }
      model := Remove(model, name);
    }

    /** The lookup of callMethodCallback. */
    method FindById(id: nat) returns (found: bool, m: Method)
      requires Valid() && (id in model.ids ==> LiveAt(model, id))
      ensures Lookup(model, id) == if found then Leads(m) else NotFound
    {
      found := id in ids;
      m := if found then ids[id].m else Method([], 0, [], TYPE_NULL);
    }

    /** The built-in method nymphsync: prints the methods in the order of their IDs. It follows every
        pointer, so none may dangle. */
    method SyncMethods() returns (blob: seq<Byte>)
      requires Valid() && Live(model)
      ensures blob == ServerTableOf(model)
    {
      blob := METHODS;
      blob := blob + LE(|ids|, 4);
      var records := PrintRecords();
      blob := blob + records;
      KeyCount(model, nextMethodId);
    }

    /** NymphServerInstance::sync, on the octets that the server returned. */
    method Sync(binmsg: seq<Byte>) returns (ok: bool)
      requires Valid() && SyncWith(model, binmsg).Synced?
      modifies this
      ensures Valid() && SyncWith(old(model), binmsg) == Synced(ok, model)
    {
      if |binmsg| < 11 { return false; }
      var methodCount := FromLE(binmsg[7..11]);
      if binmsg[..7] != METHODS { return false; }
      if methodCount == 0 { return false; }
      ok := SyncRecords(binmsg, methodCount);
    }

    method SyncRecords(binmsg: seq<Byte>, methodCount: nat) returns (ok: bool)
      requires Valid() && 11 <= |binmsg| && ReadRecords(methodCount, binmsg, 11, []).TableRead?
      modifies this
      ensures Valid()
      ensures var r := ReadRecords(methodCount, binmsg, 11, []);
        ok == r.ok && model == LearnFirst(old(model), r.ms, |r.ms|)
    {
      var index: nat := 11;
      ghost var start := model;
      ghost var read: seq<Method> := [];
      for i := 0 to methodCount
        invariant index <= |binmsg| && Valid()
        invariant ReadRecords(methodCount - i, binmsg, index, read) == ReadRecords(methodCount, binmsg, 11, [])
        invariant model == LearnFirst(start, read, |read|)
      {
        var valid, next := SyncRecord(binmsg, index);
        if !valid { return false; }
        ghost var m := ReadRecord(binmsg, index).m;
        LearnFirstOfMore(start, read, m, |read|);
        index, read := next, read + [m];
      }
      return true;
    }

    /** One turn of the loop. nymphsync, which alone has ID 0, is registered already. */
    method SyncRecord(binmsg: seq<Byte>, index: nat) returns (ok: bool, next: nat)
      requires Valid() && index <= |binmsg| && !ReadRecord(binmsg, index).RecordOutOfBounds?
      modifies this
      ensures Valid() && ok == ReadRecord(binmsg, index).RecordRead?
      ensures ok ==> next == ReadRecord(binmsg, index).next && model == Learn(old(model), ReadRecord(binmsg, index).m)
      ensures !ok ==> model == old(model)
    {
      var id, name, parameters, returnType;
      ok, id, name, parameters, returnType, next := ReadRecordAt(binmsg, index);
      if ok && id != 0 {
        RegisterMethod(name, parameters, returnType);
      }
    }

    method PrintRecords() returns (records: seq<Byte>)
      requires Valid() && Live(model)
      ensures records == Records(MethodsOf(AllRows(model)))
    {
      records := [];
      for k := 0 to nextMethodId
        invariant records == Records(MethodsOf(Rows(model, k)))
      {
        if k in ids {
          records := records + ids[k].serialized;
          RecordsNext(Rows(model, k), Row(k, model.ids[k]));
        } else {
          assert Rows(model, k + 1) == Rows(model, k);
        }
      }
    }
  }

  /** One record: a bad signature is noticed only after the ID has been read. */
  method ReadRecordAt(binmsg: seq<Byte>, index: nat)
    returns (ok: bool, id: nat, name: Name, parameters: seq<TypeCode>, returnType: TypeCode, next: nat)
    requires index <= |binmsg| && !ReadRecord(binmsg, index).RecordOutOfBounds?
    ensures ReadRecord(binmsg, index) ==
      if ok then RecordRead(Method(name, id, parameters, returnType), next) else BadRecord
  {
    name, parameters, returnType, next := [], [], 0, index;
    var signature := binmsg[next..next + 6];
    next := next + 6;
    id := FromLE(binmsg[next..next + 4]);
    next := next + 4;
    ok := signature == METHOD;
    if !ok { return; }
    var l := binmsg[next];
    next := next + 1;
    name := binmsg[next..next + l];
    next := next + l;
    l := binmsg[next];
    next := next + 1;
    for i := 0 to l
      invariant parameters == binmsg[next..next + i]
    {
      parameters := parameters + [binmsg[next + i]];
    }
    next := next + l;
    returnType, next := binmsg[next], next + 1;
  }

  lemma KeyCount(r: Registry, hi: nat)
    requires forall k :: k in r.ids ==> k < hi
    ensures |r.ids| == |MethodsOf(Rows(r, hi))|
  {
    RowCount(r, hi);
    assert r.ids.Keys == set k | 0 <= k < hi && k in r.ids;
  }

  lemma {:induction false} RecordsNext(rows: seq<Row>, row: Row)
    ensures Records(MethodsOf(rows + [row])) == Records(MethodsOf(rows)) + Record(row.m)
  {
    if rows == [] {
      assert rows + [row] == [row];
    } else {
      assert (rows + [row])[1..] == rows[1..] + [row];
      RecordsNext(rows[1..], row);
    }
  }
}
