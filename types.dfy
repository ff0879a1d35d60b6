/** The user record the directory keeps, with the nested records it carries through every merge. */
module Types {

  datatype Geo = Geo(lat: string, lng: string)

  datatype Address = Address(street: string, suite: string, city: string, zipcode: string, geo: Geo)

  datatype Company = Company(name: string, catchPhrase: string, bs: string)

  /** One directory entry. `id` is the key every cache operation matches on. */
  datatype User = User(
    id: int,
    name: string,
    username: string,
    email: string,
    phone: string,
    website: string,
    address: Address,
    company: Company)

  /** The all-empty address the optimistic record and the merge fall-backs use. */
  const EmptyAddress := Address("", "", "", "", Geo("", ""))
}
