/** The user entity and the two request shapes the service accepts. */
module Users {

  /** A calendar date (`DateOnly`). */
  datatype Date = Date(year: int, month: int, day: int)

  /** The persisted entity; a reference object whose fields the service overwrites in place. */
  class User {
    var Id: int
    var Name: string
    var Age: int
    var DateOfBirth: Date

    /** `new User { Name = ..., DateOfBirth = ..., Age = ... }`: `Id` keeps its default, 0. */
    constructor (name: string, age: int, dateOfBirth: Date)
      ensures Id == 0 && Name == name && Age == age && DateOfBirth == dateOfBirth
    {
      Id := 0;
      Name := name;
      Age := age;
      DateOfBirth := dateOfBirth;
    }
  }

  /** The field values of a user at one moment, as a repository call receives them. */
  datatype UserFields = UserFields(Id: int, Name: string, Age: int, DateOfBirth: Date)

  function FieldsOf(user: User): UserFields
    reads user
  {
    UserFields(user.Id, user.Name, user.Age, user.DateOfBirth)
  }

  /** Input of a create: a record consumed once to build a `User`. */
  datatype CreateUserDto = CreateUserDto(Name: string, Age: int, DateOfBirth: Date)

  /** Input of an update: which user, and the field values to give it. */
  datatype UpdateUserDto = UpdateUserDto(Id: int, Name: string, Age: int, DateOfBirth: Date)
}
