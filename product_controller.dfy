/** The shop's product API (Controllers/ProductController.cs over the entity of
    Models/Product.cs). The `Products` table is a class holding the tracked `Product`
    entities; `Update` assigns the fields of the tracked entity one by one, `Create` and
    `Delete` add and remove entities. A request body is given as its JSON content,
    because what the model binder makes of a missing `imageUrl` matters (the property
    initialiser supplies the default image). Prices are whole cents. */
module ProductController {
  import opened Wrappers
  import Text

  const DefaultImage: string := "/images/default.png"

  /** The `[Range(0.01, ...)]` lower bound, in cents. */
  const MinPriceCents: int := 1

  /** A tracked product entity. */
  class Product {
    var id: int
    var name: string
    var price: int
    var imageUrl: string

    constructor (id: int, name: string, price: int, imageUrl: string)
      ensures this.id == id && this.name == name && this.price == price && this.imageUrl == imageUrl
    {
      this.id := id;
      this.name := name;
      this.price := price;
      this.imageUrl := imageUrl;
    }

    /** The values of the entity's columns. */
    function Snapshot(): Row
      reads this
    {
      Row(id, name, price, imageUrl)
    }
  }

  /** One row of the table as values; the body of an Ok response. */
  datatype Row = Row(id: int, name: string, price: int, imageUrl: string)

  /** The JSON value of a string property: absent, `null`, or a string. */
  datatype JsonString = Omitted | Null | Str(s: string)

  /** A request body: `{ id, name, price, imageUrl }`; a missing or null name is "". */
  datatype ProductBody = ProductBody(id: int, name: string, price: int, imageUrl: JsonString)

  /** The `ImageUrl` the model binder produces: the initialiser's default when the
      property is absent, `None` for `null`. */
  function BoundImage(j: JsonString): (r: Option<string>)
    ensures j.Omitted? ==> r == Some(DefaultImage)
    ensures j.Null? ==> r == None
    ensures j.Str? ==> r == Some(j.s)
  {
    match j
    case Omitted => Some(DefaultImage)
    case Null => None
    case Str(s) => Some(s)
  }

  /** `string.IsNullOrEmpty`. */
  predicate IsNullOrEmpty(s: Option<string>) {
    s.None? || s.value == ""
  }

  /** The automatic model validation of `[ApiController]`. `[Required]` rejects a null,
      empty or white-space name. The project enables nullable reference types, so the
      non-nullable `ImageUrl` carries an implicit `[Required]` and the bound image must
      be present and not blank. The price must be at least 0.01. */
  predicate ValidBody(b: ProductBody) {
    && !Text.AllDotNetWhitespace(b.name)
    && b.price >= MinPriceCents
    && BoundImage(b.imageUrl).Some? && !Text.AllDotNetWhitespace(BoundImage(b.imageUrl).value)
  }

  /** The image `Create` stores: the default when the bound value is null or empty. */
  function CreatedImage(j: JsonString): (r: string)
    ensures r != ""
    ensures j.Str? && j.s != "" ==> r == j.s
    ensures !(j.Str? && j.s != "") ==> r == DefaultImage
  {
    var bound := BoundImage(j);
    if IsNullOrEmpty(bound) then DefaultImage else bound.value
  }

  /** The row `Update` leaves behind: name and price copied, the image replaced only by a
      non-empty bound value, the key kept. */
  function Updated(r: Row, b: ProductBody): (u: Row)
    ensures u.id == r.id && u.name == b.name && u.price == b.price
    ensures b.imageUrl.Str? && b.imageUrl.s != "" ==> u.imageUrl == b.imageUrl.s
    ensures b.imageUrl.Null? || b.imageUrl == Str("") ==> u.imageUrl == r.imageUrl
  {
    var bound := BoundImage(b.imageUrl);
    Row(r.id, b.name, b.price, if IsNullOrEmpty(bound) then r.imageUrl else bound.value)
  }

  /** A validated body always binds a non-empty image, so neither fallback of the
      actions is taken: `Create` stores the sent (or initialiser) image and `Update`
      always overwrites the stored one. */
  lemma ValidatedImageIsUsed(b: ProductBody, r: Row)
    requires ValidBody(b)
    ensures CreatedImage(b.imageUrl) == BoundImage(b.imageUrl).value
    ensures Updated(r, b).imageUrl == BoundImage(b.imageUrl).value
    ensures !Text.AllDotNetWhitespace(Updated(r, b).imageUrl)
  {
    assert BoundImage(b.imageUrl).value != "";
  }

  /** A body without `imageUrl` does not keep the stored picture: the initialiser's
      default is non-empty, so `Update` writes it over the stored image. */
  lemma OmittedImageResetsToDefault(r: Row, name: string, price: int)
    ensures Updated(r, ProductBody(r.id, name, price, Omitted)).imageUrl == DefaultImage
  {
  }

  /** The rows of a list of entities, in order. */
  function RowsOf(ps: seq<Product>): (r: seq<Row>)
    reads ps
    ensures |r| == |ps|
    ensures forall i :: 0 <= i < |ps| ==> r[i] == ps[i].Snapshot()
  {
    seq(|ps|, i requires 0 <= i < |ps| reads ps => ps[i].Snapshot())
  }

  /** The position of the row with key `id`; keys are unique, so it is the only one. */
  function IndexOf(rows: seq<Row>, id: int): (r: Option<nat>)
    ensures r.None? <==> forall i :: 0 <= i < |rows| ==> rows[i].id != id
    ensures r.Some? ==> r.value < |rows| && rows[r.value].id == id
    ensures r.Some? ==> forall i :: 0 <= i < r.value ==> rows[i].id != id
  {
    if rows == [] then None
    else if rows[0].id == id then Some(0)
    else
      match IndexOf(rows[1..], id)
      case None => None
      case Some(i) => Some(i + 1)
  }

  predicate UniqueIds(rows: seq<Row>) {
    forall i, j :: 0 <= i < j < |rows| ==> rows[i].id != rows[j].id
  }

  /** The outcome of an action. */
  datatype Outcome = BadRequest | NotFound | Ok(row: Row) | Created(row: Row) | Deleted | DuplicateKey

  /** The `Products` set of the database context. */
  class ProductTable {
    var products: seq<Product>

    /** No entity is tracked twice and no key is used twice. */
    ghost predicate Valid()
      reads this, products
    {
      && (forall i, j :: 0 <= i < j < |products| ==> products[i] != products[j])
      && UniqueIds(RowsOf(products))
    }

    function Rows(): seq<Row>
      reads this, products
    {
      RowsOf(products)
    }

    constructor ()
      ensures products == [] && Valid()
    {
      products := [];
    }

    /** `GetById`: the row with that key, or NotFound; the table is not touched. */
    method GetById(id: int) returns (r: Outcome)
      ensures r.NotFound? <==> forall i :: 0 <= i < |Rows()| ==> Rows()[i].id != id
      ensures r.NotFound? || r.Ok?
      ensures r.Ok? ==> r.row in Rows() && r.row.id == id
    {
      var i := IndexOf(Rows(), id);
      if i.None? {
        return NotFound;
      }
      r := Ok(products[i.value].Snapshot());
    }

    /** `Create`: after validation, one new entity with the default image where none was
        sent, appended; the key is the body's, or the one the database generates. */
    method Create(body: ProductBody, freshId: int) returns (r: Outcome)
      requires Valid()
      requires forall i :: 0 <= i < |Rows()| ==> Rows()[i].id != freshId
      modifies this
      ensures Valid()
      ensures !ValidBody(body) ==> r == BadRequest && products == old(products)
      ensures ValidBody(body) && body.id != 0 && IndexOf(old(Rows()), body.id).Some? ==>
                r == DuplicateKey && products == old(products)
      ensures ValidBody(body) && !(body.id != 0 && IndexOf(old(Rows()), body.id).Some?) ==>
                && r == Created(Row(if body.id == 0 then freshId else body.id, body.name, body.price,
                                    CreatedImage(body.imageUrl)))
                && |products| == |old(products)| + 1
                && products[..|old(products)|] == old(products)
                && fresh(products[|old(products)|])
                && Rows() == old(Rows()) + [r.row]
      ensures r.Created? ==>
                !Text.AllDotNetWhitespace(r.row.name) && r.row.price >= MinPriceCents &&
                !Text.AllDotNetWhitespace(r.row.imageUrl)
    {
      if !ValidBody(body) {
        return BadRequest;
      }
      var id := if body.id == 0 then freshId else body.id;
      if body.id != 0 && IndexOf(Rows(), body.id).Some? {
        return DuplicateKey;
      }
      var image := BoundImage(body.imageUrl);
      if IsNullOrEmpty(image) {
        image := Some(DefaultImage);
      }
      var product := new Product(id, body.name, body.price, image.value);
      ghost var before := Rows();
      products := products + [product];
      assert products[..|products| - 1] == old(products);
      assert Rows() == before + [product.Snapshot()];
      r := Created(product.Snapshot());
    }

    /** `Update`: after validation, the tracked entity with that key gets the body's name
        and price, and its image when a non-empty one was bound; nothing else changes. */
    method Update(id: int, body: ProductBody) returns (r: Outcome)
      requires Valid()
      modifies products
      ensures Valid() && products == old(products)
      ensures !ValidBody(body) ==> r == BadRequest && Rows() == old(Rows())
      ensures ValidBody(body) && IndexOf(old(Rows()), id).None? ==> r == NotFound && Rows() == old(Rows())
      ensures ValidBody(body) && IndexOf(old(Rows()), id).Some? ==>
                var i := IndexOf(old(Rows()), id).value;
                && r == Ok(Updated(old(Rows())[i], body))
                && Rows() == old(Rows())[i := r.row]
      ensures r.Ok? ==>
                !Text.AllDotNetWhitespace(r.row.name) && r.row.price >= MinPriceCents &&
                !Text.AllDotNetWhitespace(r.row.imageUrl)
    {
      if !ValidBody(body) {
        return BadRequest;
      }
      var found := IndexOf(Rows(), id);
      if found.None? {
        return NotFound;
      }
      var existingProduct := products[found.value];
      ghost var before := Rows();
      existingProduct.name := body.name;
      existingProduct.price := body.price;
      var image := BoundImage(body.imageUrl);
      if !IsNullOrEmpty(image) {
        existingProduct.imageUrl := image.value;
      }
      r := Ok(existingProduct.Snapshot());
      assert r.row == Updated(before[found.value], body);
      assert Rows() == before[found.value := r.row] by {
        forall j | 0 <= j < |products| && j != found.value
          ensures Rows()[j] == before[j]
        {
          assert products[j] != existingProduct;
        }
      }
      ValidatedImageIsUsed(body, before[found.value]);
    }

    /** `Delete`: the entity with that key is removed, or NotFound. */
    method Delete(id: int) returns (r: Outcome)
      requires Valid()
      modifies this
      ensures Valid()
      ensures IndexOf(old(Rows()), id).None? ==> r == NotFound && products == old(products)
      ensures IndexOf(old(Rows()), id).Some? ==>
                var i := IndexOf(old(Rows()), id).value;
                && r == Deleted
                && products == old(products[..i] + products[i + 1..])
                && Rows() == old(Rows()[..i] + Rows()[i + 1..])
      ensures forall k :: 0 <= k < |Rows()| ==> Rows()[k].id != id
    {
      var found := IndexOf(Rows(), id);
      if found.None? {
        return NotFound;
      }
      var i := found.value;
      ghost var before := Rows();
      RowsOfRemove(products, i);
      RemoveKeepsUnique(before, i);
      products := products[..i] + products[i + 1..];
      r := Deleted;
    }
  }

  lemma RowsOfRemove(ps: seq<Product>, i: nat)
    requires i < |ps|
    ensures RowsOf(ps[..i] + ps[i + 1..]) == RowsOf(ps)[..i] + RowsOf(ps)[i + 1..]
  {
    var q := ps[..i] + ps[i + 1..];
    var all := RowsOf(ps);
    var l, r := RowsOf(q), all[..i] + all[i + 1..];
    assert |l| == |r|;
    forall k | 0 <= k < |l| ensures l[k] == r[k] {
      var j := if k < i then k else k + 1;
      assert q[k] == ps[j];
      assert l[k] == q[k].Snapshot();
      assert r[k] == all[j];
    }
  }

  /** Removing the row at `i` keeps the keys unique and leaves no row with its key. */
  lemma RemoveKeepsUnique(rows: seq<Row>, i: nat)
    requires i < |rows| && UniqueIds(rows)
    ensures UniqueIds(rows[..i] + rows[i + 1..])
    ensures forall x :: x in rows[..i] + rows[i + 1..] ==> x.id != rows[i].id
  {
    var rest := rows[..i] + rows[i + 1..];
    assert forall k :: 0 <= k < |rest| ==> rest[k] == rows[if k < i then k else k + 1];
  }

  /** Reading after a successful create finds the new row. */
  lemma CreatedIsFound(rows: seq<Row>, row: Row)
    requires UniqueIds(rows + [row])
    ensures IndexOf(rows + [row], row.id) == Some(|rows|)
  {
    assert (rows + [row])[|rows|] == row;
  }
}
