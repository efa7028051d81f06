/** The services and characteristics of a server, as its options give them. */
module GattServer {

  /** A characteristic's option: no handle, that of the declaration, or those of declaration, value and
      client configuration, where 0 stands for no client configuration. */
  datatype FixedHandles = NoHandle | Declared(handle: nat) | AllThree(declaration: nat, value: nat, cccd: nat)

  /** A characteristic: its type, its number of attributes, its fixed handles, whether it notifies or indicates, and the
      priority of its notifications. */
  datatype Characteristic = Characteristic(id: nat, attributes: nat, fixed: FixedHandles, cccd: bool, priority: nat)

  datatype Service = Service(fixed: FixedHandles, includes: nat, characteristics: seq<Characteristic>)

  function AttributesOf(cs: seq<Characteristic>): nat {
    if cs == [] then 0 else cs[0].attributes + AttributesOf(cs[1..])
  }

  /** The attributes in front of a service's characteristics: its declaration and one for every include. */
  function OwnAttributes(s: Service): nat {
    1 + s.includes
  }

  function ServiceAttributes(s: Service): nat {
    OwnAttributes(s) + AttributesOf(s.characteristics)
  }

  /** The number of attributes in the server's table. */
  function TableSize(services: seq<Service>): nat {
    if services == [] then 0 else ServiceAttributes(services[0]) + TableSize(services[1..])
  }

  /** No service includes another one. */
  predicate NoIncludes(services: seq<Service>) {
    forall i :: 0 <= i < |services| ==> services[i].includes == 0
  }

  // ---- Places in the attribute table ----

  /** The index of a service's declaration. */
  function ServiceIndex(services: seq<Service>, s: nat): nat
    requires s <= |services|
  {
    if s == 0 then 0 else ServiceAttributes(services[0]) + ServiceIndex(services[1..], s - 1)
  }

  /** The place of a characteristic's declaration among its service's characteristics. */
  function CharacteristicIndex(cs: seq<Characteristic>, k: nat): nat
    requires k <= |cs|
  {
    if k == 0 then 0 else cs[0].attributes + CharacteristicIndex(cs[1..], k - 1)
  }

  ghost predicate IsCharacteristic(services: seq<Service>, s: nat, k: nat) {
    s < |services| && k < |services[s].characteristics|
  }

  /** The index of a characteristic's declaration in the server's attribute table; its value follows. */
  function DeclarationIndex(services: seq<Service>, s: nat, k: nat): nat
    requires s < |services| && k <= |services[s].characteristics|
  {
    ServiceIndex(services, s) + OwnAttributes(services[s]) + CharacteristicIndex(services[s].characteristics, k)
  }
}
