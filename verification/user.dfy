/** The User account, as far as the borrow and payment handlers read and write it. */
module UserModel {

  /** `totalDebt` rises when a book is borrowed and falls when a payment is
      marked paid; `balance` collects what has been paid. */
  datatype User = User(totalDebt: real, balance: real, hasActiveBorrow: bool)
}
