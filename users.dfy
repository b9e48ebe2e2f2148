/**
 * The `User` entity and its two-phase lifecycle: a user is constructed with a
 * validated e-mail address, and only later, once the caller has checked them
 * against the database, receives its identifier and its library card number.
 * Projecting the user onto a graph node, or serializing it, needs both.
 */
module Users {
  import opened Wrappers
  import Validators
  import Entities

  /** An attrs field declared `init=False` without a default: it has no value until first assigned. */
  datatype Attr<T> = Unassigned | Assigned(value: T)

  /**
   * What reading an incomplete user raises: the `AttributeError` of a field never
   * assigned, or the `ValueError` of `as_node` when a field holds `None`.
   */
  datatype UserError = MissingAttribute(attribute: string) | NullIdentity

  /** The properties a `UserNode` copies from a user that has both its identifier and its card number. */
  datatype UserNode = UserNode(
    email: Option<string>, address: string, location: Entities.Location,
    name: string, surname: string, verified: bool,
    userid: Entities.Uuid, cardNr: int, phone: Option<int>)

  /** The e-mail invariant that attrs keeps on construction and on every assignment. */
  ghost predicate EmailValid(email: Option<string>) {
    email.None? || Validators.AcceptedEmail(email.value)
  }

  class User {
    var email: Option<string>
    var address: string
    var location: Entities.Location
    var name: string
    var surname: string
    var verified: bool
    var userid: Attr<Entities.Uuid>
    var cardNr: Attr<Option<int>>
    var phone: Option<int>

    ghost predicate Valid()
      reads this`email
    {
      EmailValid(email)
    }

    /** The attrs `__init__` once the e-mail validator has passed; `userid` and `card_nr` stay unassigned. */
    constructor (email: Option<string>, address: string, location: Entities.Location,
                 name: string, surname: string, verified: bool, phone: Option<int>)
      requires EmailValid(email)
      ensures Valid()
      ensures this.email == email && this.address == address && this.location == location
      ensures this.name == name && this.surname == surname && this.verified == verified
      ensures this.phone == phone
      ensures userid == Unassigned && cardNr == Unassigned
    {
      this.email := email;
      this.address := address;
      this.location := location;
      this.name := name;
      this.surname := surname;
      this.verified := verified;
      this.userid := Unassigned;
      this.cardNr := Unassigned;
      this.phone := phone;
    }

    /** `User(email, ...)`: the e-mail validator runs first and its error is raised instead of a user. */
    static method Create(email: Option<string>, address: string, location: Entities.Location,
                         name: string, surname: string, verified: bool, phone: Option<int>)
      returns (r: Result<User, Validators.ValueError>)
      ensures r.Success? <==> EmailValid(email)
      ensures r.Success? ==> fresh(r.value) && r.value.Valid()
      ensures r.Success? ==>
        && r.value.email == email && r.value.address == address
        && r.value.location == location && r.value.name == name && r.value.surname == surname
        && r.value.verified == verified && r.value.phone == phone
        && r.value.userid == Unassigned && r.value.cardNr == Unassigned
      ensures r.Failure? ==> r.error == Validators.ValueError(Validators.EmailMessage("email", email.value))
    {
      match Validators.ValidateEmail("email", email)
      case Pass =>
        var u := new User(email, address, location, name, surname, verified, phone);
        r := Success(u);
      case Fail(e) =>
        r := Failure(e);
    }

    /**
     * `set_userid`: stores a new identifier (`uuid.uuid4()`, here a parameter),
     * on every call, whatever was there before; nothing else changes.
     */
    method SetUserid(id: Entities.Uuid)
      modifies this`userid
      ensures userid == Assigned(id)
    {
      userid := Assigned(id);
    }

    /** `set_card_nr`: stores the argument as it is, `None` included, and changes nothing else. */
    method SetCardNr(cardNr: Option<int>)
      modifies this`cardNr
      ensures this.cardNr == Assigned(cardNr)
    {
      this.cardNr := Assigned(cardNr);
    }

    /** `user.email = value`: attrs validates before assigning, so a refused value leaves the old one. */
    method AssignEmail(value: Option<string>) returns (r: Outcome<Validators.ValueError>)
      requires Valid()
      modifies this`email
      ensures Valid()
      ensures r.Pass? <==> EmailValid(value)
      ensures email == if r.Pass? then value else old(email)
      ensures r.Fail? ==> r.error == Validators.ValueError(Validators.EmailMessage("email", value.value))
    {
      r := Validators.ValidateEmail("email", value);
      if r.Pass? {
        email := value;
      }
    }

    /**
     * `as_node`: reading `userid` then `card_nr` raises for a field never
     * assigned, a `None` there raises the null-identity error, and otherwise the
     * node carries every field of the user.
     */
    function AsNode(): (r: Result<UserNode, UserError>)
      reads this
      ensures r.Success? <==> userid.Assigned? && cardNr.Assigned? && cardNr.value.Some?
      ensures r.Success? ==> r.value == UserNode(email, address, location, name, surname, verified,
                                                 userid.value, cardNr.value.value, phone)
      ensures userid.Unassigned? ==> r == Failure(MissingAttribute("userid"))
      ensures userid.Assigned? && cardNr.Unassigned? ==> r == Failure(MissingAttribute("card_nr"))
      ensures userid.Assigned? && cardNr == Assigned(None) ==> r == Failure(NullIdentity)
    {
      match (userid, cardNr)
      case (Unassigned, _) => Failure(MissingAttribute("userid"))
      case (Assigned(_), Unassigned) => Failure(MissingAttribute("card_nr"))
      case (Assigned(_), Assigned(None)) => Failure(NullIdentity)
      case (Assigned(id), Assigned(Some(n))) =>
        Success(UserNode(email, address, location, name, surname, verified, id, n, phone))
    }

    /**
     * `serialize`: every field under its own name; reading `userid` (first) or
     * `card_nr` before they were assigned raises. A `None` card number is kept.
     */
    function Serialize(): (r: Result<map<string, Entities.Value>, UserError>)
      reads this
      ensures r.Success? <==> userid.Assigned? && cardNr.Assigned?
      ensures userid.Unassigned? ==> r == Failure(MissingAttribute("userid"))
      ensures userid.Assigned? && cardNr.Unassigned? ==> r == Failure(MissingAttribute("card_nr"))
      ensures r.Success? ==>
        r.value.Keys == {"email", "address", "location", "name", "surname", "verified", "userid", "card_nr", "phone"}
      ensures r.Success? ==>
        && r.value["email"] == Entities.OptText(email)
        && r.value["location"] == Entities.Place(location)
        && r.value["userid"] == Entities.Identifier(userid.value)
        && r.value["card_nr"] == Entities.OptInteger(cardNr.value)
        && r.value["verified"] == Entities.Flag(verified)
        && r.value["address"] == Entities.Text(address)
        && r.value["name"] == Entities.Text(name)
        && r.value["surname"] == Entities.Text(surname)
        && r.value["phone"] == Entities.OptInteger(phone)
    {
      match (userid, cardNr)
      case (Unassigned, _) => Failure(MissingAttribute("userid"))
      case (Assigned(_), Unassigned) => Failure(MissingAttribute("card_nr"))
      case (Assigned(id), Assigned(n)) =>
        Success(map[
          "email" := Entities.OptText(email), "address" := Entities.Text(address),
          "location" := Entities.Place(location), "name" := Entities.Text(name),
          "surname" := Entities.Text(surname), "verified" := Entities.Flag(verified),
          "userid" := Entities.Identifier(id), "card_nr" := Entities.OptInteger(n),
          "phone" := Entities.OptInteger(phone)])
    }
  }

  /**
   * The two-phase lifecycle, run once in each order: a new user cannot be
   * projected, one setter alone is not enough, and after both setters the node
   * is the same whichever ran first.
   */
  method RegisterInEitherOrder(email: Option<string>, address: string, location: Entities.Location,
                               name: string, surname: string, verified: bool, phone: Option<int>,
                               id: Entities.Uuid, card: int)
    returns (idFirst: Result<UserNode, UserError>, cardFirst: Result<UserNode, UserError>)
    requires EmailValid(email)
    ensures idFirst == cardFirst
    ensures idFirst == Success(UserNode(email, address, location, name, surname, verified, id, card, phone))
  {
    var u := new User(email, address, location, name, surname, verified, phone);
    assert u.AsNode() == Failure(MissingAttribute("userid"));
    u.SetUserid(id);
    assert u.AsNode() == Failure(MissingAttribute("card_nr"));
    u.SetCardNr(Some(card));
    idFirst := u.AsNode();

    var v := new User(email, address, location, name, surname, verified, phone);
    v.SetCardNr(Some(card));
    assert v.AsNode() == Failure(MissingAttribute("userid"));
    v.SetUserid(id);
    cardFirst := v.AsNode();
  }
}
