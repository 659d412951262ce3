/**
 The entities of the catalogue and order tables, as the two controllers
 read and write them.
 */
module Models {
  import opened Wrappers

  /** Money in hundredths: the columns are decimal(18,2). */
  type Cents = int

  const Int32Min: int := -0x8000_0000
  const Int32Max: int := 0x7FFF_FFFF

  /**
   The value C#'s unchecked 32-bit `int` arithmetic gives for the exact
   result `x`: the one value in the int range that differs from `x` by a
   multiple of 2^32.
   */
  function Wrap32(x: int): (r: int)
    ensures Int32Min <= r <= Int32Max
    ensures (r - x) % 0x1_0000_0000 == 0
    ensures Int32Min <= x <= Int32Max ==> r == x
  {
    (x - Int32Min) % 0x1_0000_0000 + Int32Min
  }

  /** A point in time; the request's clock reading is passed in. */
  type Timestamp = int

  /**
   The authenticated caller: the id the user manager reports (null for a
   principal without one) and whether the caller is in the Admin role.
   */
  datatype Actor = Actor(userId: Option<string>, isAdmin: bool)

  /** An explicit per-user grant on one product. */
  datatype ProductPermission = ProductPermission(
    id: int,
    productId: int,
    userId: string,
    canView: bool,
    canEdit: bool)

  /** A catalogue product with its loaded `Permissions` navigation collection. */
  datatype Product = Product(
    id: int,
    name: string,
    description: Option<string>,
    price: Cents,
    isActive: bool,
    categoryId: Option<int>,
    createdByUserId: Option<string>,
    permissions: seq<ProductPermission>)

  datatype Status = Pending | Cancelled | Received

  datatype Order = Order(
    id: int,
    productId: int,
    userId: Option<string>,
    quantity: int,
    totalPrice: Cents,
    orderDate: Timestamp,
    status: Status,
    isActive: bool)
}
